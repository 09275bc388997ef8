/** What the store makes of a bundle, in the terms of the bundle's own fields: which bundles it takes for one, and what it
    keeps of each. */
module StoreFields {
  import opened Bytes
  import opened Text
  import opened Endpoint
  import opened Blocks
  import opened BundleCodec
  import opened BundleIds
  import opened StoreMachine
  import Retention

  // ---------------------------------------------------------------- which bundles are one

  /** The same source, creation timestamp, fragment flag, offset and total length. */
  predicate SameBundle(p: PrimaryBlock, q: PrimaryBlock) {
    && p.source == q.source && p.timestamp == q.timestamp && p.flags % 2 == q.flags % 2
    && p.fragmentOffset == q.fragmentOffset && p.totalDataLength == q.totalDataLength
  }

  /** Two whole bundles of one source and timestamp, or two such fragments with one offset and total length. */
  predicate ShowTheSame(p: PrimaryBlock, q: PrimaryBlock) {
    && Uri(p.source) == Uri(q.source) && p.timestamp == q.timestamp && p.flags % 2 == q.flags % 2
    && (p.flags % 2 == 1 ==> p.fragmentOffset == q.fragmentOffset && p.totalDataLength == q.totalDataLength)
  }

  /** A whole bundle's source is spelled like a fragment's with the fragment's timestamp at its end, and the whole bundle's
      timestamp is the fragment's offset and total length. */
  predicate Crossed(whole: PrimaryBlock, fragment: PrimaryBlock) {
    && whole.flags % 2 == 0 && fragment.flags % 2 == 1
    && Uri(whole.source)
       == Uri(fragment.source) + [DASH] + Decimal(fragment.timestamp.time) + [DASH] + Decimal(fragment.timestamp.sequence)
    && whole.timestamp.time == fragment.fragmentOffset && whole.timestamp.sequence == fragment.totalDataLength
  }

  predicate SharedKey(p: PrimaryBlock, q: PrimaryBlock) {
    ShowTheSame(p, q) || Crossed(p, q) || Crossed(q, p)
  }

  lemma SameIDExactly(b: Bundle, c: Bundle)
    ensures ID(b) == ID(c) <==> SameBundle(b.primary, c.primary)
    ensures Print(ID(b)) == Print(ID(c)) <==> SharedKey(b.primary, c.primary)
  {
    hide Uri, Print, Decimal;
    SameKeyExactly(ID(b), ID(c));
  }

  /** Two bundles that can be written, inserted one after the other into an empty store. The second one is a bundle of its
      own unless the two agree in their source, timestamp, fragment flag, offset and total length, and is then only known to
      be held by others; or unless their keys are the same although they differ, and then it is refused. */
  lemma SecondInsertion(cfg: Config, b: Bundle, c: Bundle)
    requires EncodeBundle(cfg.env, b).Some? && EncodeBundle(cfg.env, c).Some?
    ensures var s := Step(cfg, EMPTY, Insert(b, Fine));
            var t := Step(cfg, s, Insert(c, Fine));
            var same, shared := SameBundle(b.primary, c.primary), SharedKey(b.primary, c.primary);
            && |s.descriptors| == 1 && s.descriptors[0].bundle == b
            && (same ==> |t.descriptors| == 1 && t.descriptors[0].bundle == b)
            && (!same && shared ==> t == s)
            && (!same && !shared ==> |t.descriptors| == 2 && t.descriptors[0] == s.descriptors[0] && t.descriptors[1].bundle == c)
  {
    hide EncodeBundle, Print, ID, PreviousNodes, SameBundle, SharedKey, Step;
    SameIDExactly(b, c);
    InsertInto(cfg, EMPTY, b);
    SecondStep(cfg, Step(cfg, EMPTY, Insert(b, Fine)), b, c);
  }

  lemma SecondStep(cfg: Config, s: Store, b: Bundle, c: Bundle)
    requires EncodeBundle(cfg.env, c).Some? && |s.descriptors| == 1 && s.descriptors[0].bundle == b
    requires s.bundles == map[ID(b) := 0] && s.disk.rows.Keys == {Print(ID(b))}
    ensures var t := Step(cfg, s, Insert(c, Fine));
            && (ID(b) == ID(c) ==> |t.descriptors| == 1 && t.descriptors[0].bundle == b)
            && (ID(b) != ID(c) && Print(ID(b)) == Print(ID(c)) ==> t == s)
            && (ID(b) != ID(c) && Print(ID(b)) != Print(ID(c)) ==>
                |t.descriptors| == 2 && t.descriptors[0] == s.descriptors[0] && t.descriptors[1].bundle == c)
  {
    hide EncodeBundle, Print, ID, PreviousNodes;
  }

  /** For sources that a reader can make: keys are shared by bundles that differ in hidden fields only, or by a whole bundle
      and a fragment of two endpoints of one node, the whole bundle's demux part being the fragment's followed by the fragment's
      timestamp. */
  lemma SharedKeyExactly(p: PrimaryBlock, q: PrimaryBlock)
    requires WellFormed(p.source) && WellFormed(q.source)
    ensures ShowTheSame(p, q) ==> p.source == q.source
    ensures Crossed(p, q) <==>
      && p.flags % 2 == 0 && q.flags % 2 == 1
      && p.timestamp.time == q.fragmentOffset && p.timestamp.sequence == q.totalDataLength
      && p.source.Dtn? && q.source.Dtn? && p.source.nodeName == q.source.nodeName
      && p.source.demux == q.source.demux + [DASH] + Decimal(q.timestamp.time) + [DASH] + Decimal(q.timestamp.sequence)
  {
    hide Uri, Decimal, WellFormed;
    if ShowTheSame(p, q) {
      UriInjective(p.source, q.source);
    }
    var whole := BundleID(p.source, p.timestamp, false, 0, 0);
    var fragment := BundleID(q.source, q.timestamp, true, q.fragmentOffset, q.totalDataLength);
    CollideExactly(whole, fragment);
  }

  // ---------------------------------------------------------------- what is kept of a bundle

  /** The block at `k` is the one block of its type. */
  predicate OnlyOfItsType(blocks: seq<CanonicalBlock>, k: nat)
    requires k < |blocks|
  {
    forall j :: 0 <= j < |blocks| && j != k ==> blocks[j].TypeCode() != blocks[k].TypeCode()
  }

  lemma {:induction false} NoneOfType(blocks: seq<CanonicalBlock>, code: uint64)
    ensures OfType(blocks, code) == [] <==> forall j :: 0 <= j < |blocks| ==> blocks[j].TypeCode() != code
  {
    if exists j :: 0 <= j < |blocks| && blocks[j].TypeCode() == code {
      var j :| 0 <= j < |blocks| && blocks[j].TypeCode() == code;
      assert blocks[j] in OfType(blocks, code);
    } else if OfType(blocks, code) != [] {
      assert OfType(blocks, code)[0] in blocks;
    }
  }

  lemma {:induction false} OnlyOne(blocks: seq<CanonicalBlock>, k: nat)
    requires k < |blocks| && OnlyOfItsType(blocks, k)
    ensures OfType(blocks, blocks[k].TypeCode()) == [blocks[k]]
  {
    var code := blocks[k].TypeCode();
    if k == 0 {
      assert forall j :: 0 <= j < |blocks[1..]| ==> blocks[1..][j] == blocks[j + 1];
      NoneOfType(blocks[1..], code);
    } else {
      assert forall j :: 0 <= j < |blocks[1..]| ==> blocks[1..][j] == blocks[j + 1];
      OnlyOne(blocks[1..], k - 1);
    }
  }

  lemma {:induction false} CountedOnce(blocks: seq<CanonicalBlock>, k: nat)
    requires k < |blocks|
    ensures |OfType(blocks, blocks[k].TypeCode())| == 1 <==> OnlyOfItsType(blocks, k)
  {
    if OnlyOfItsType(blocks, k) {
      OnlyOne(blocks, k);
    } else {
      var j :| 0 <= j < |blocks| && j != k && blocks[j].TypeCode() == blocks[k].TypeCode();
      CountedTwice(blocks, blocks[k].TypeCode(), if j < k then j else k, if j < k then k else j);
    }
  }

  lemma {:induction false} CountedTwice(blocks: seq<CanonicalBlock>, code: uint64, i: nat, j: nat)
    requires i < j < |blocks| && blocks[i].TypeCode() == code && blocks[j].TypeCode() == code
    ensures |OfType(blocks, code)| >= 2
  {
    if i == 0 {
      assert blocks[1..][j - 1] == blocks[j];
      assert blocks[j] in OfType(blocks[1..], code);
    } else {
      CountedTwice(blocks[1..], code, i - 1, j - 1);
    }
  }

  /** In every run: what a descriptor says of its bundle. It expires at the bundle's creation time plus its lifetime; this
      node holds it, and so does the one that a previous node block names, if there is one such block. */
  lemma DescribedInEveryRun(cfg: Config, actions: seq<Action>, d: nat)
    requires Injective(cfg.hash) && d < |Run(cfg, EMPTY, actions).descriptors|
    ensures var x := Run(cfg, EMPTY, actions).descriptors[d];
            var pb := x.bundle.primary;
            && x.metadata.expires == pb.timestamp.time + pb.lifetime
            && x.metadata.destination == pb.destination && x.metadata.reportTo == pb.reportTo
            && (x.metadata.administrative <==> pb.flags / 2 % 2 == 1)
            && x.metadata.id.source == pb.source && x.metadata.id.timestamp == pb.timestamp
            && cfg.nodeID in x.metadata.holders
            && forall k :: 0 <= k < |x.bundle.extensions| && OnlyOfItsType(x.bundle.extensions, k)
                           && x.bundle.extensions[k].value.PreviousNode? ==>
                 x.bundle.extensions[k].value.endpoint in x.metadata.holders
  {
    hide Injective, Run, Step, Stored, Retention.Consistent, EncodeBundle, Print, OfType, OnlyOfItsType;
    EmptySafe(cfg);
    RunSafe(cfg, EMPTY, actions);
    var s := Run(cfg, EMPTY, actions);
    assert Sound(cfg, s, d);
    var x := s.descriptors[d];
    var known := [cfg.nodeID] + PreviousNodes(x.bundle.extensions);
    assert x.metadata.holders[0] == known[0];
    forall k | 0 <= k < |x.bundle.extensions| && OnlyOfItsType(x.bundle.extensions, k) && x.bundle.extensions[k].value.PreviousNode?
      ensures x.bundle.extensions[k].value.endpoint in x.metadata.holders
    {
      OnlyOne(x.bundle.extensions, k);
      assert x.metadata.holders[1] == known[1];
    }
  }

  // ---------------------------------------------------------------- a bundle that comes again

  /** The block at `k` says which node the bundle comes from, and no other block does. */
  predicate NamesSender(blocks: seq<CanonicalBlock>, k: nat)
    requires k < |blocks|
  {
    OnlyOfItsType(blocks, k) && blocks[k].value.PreviousNode?
  }

  lemma SenderExactly(blocks: seq<CanonicalBlock>)
    ensures forall k :: 0 <= k < |blocks| && NamesSender(blocks, k) ==> PreviousNodes(blocks) == [blocks[k].value.endpoint]
    ensures PreviousNodes(blocks) != [] ==> exists k :: 0 <= k < |blocks| && NamesSender(blocks, k)
  {
    hide OfType, OnlyOfItsType;
    forall k | 0 <= k < |blocks| && NamesSender(blocks, k) ensures PreviousNodes(blocks) == [blocks[k].value.endpoint] {
      OnlyOne(blocks, k);
    }
    if PreviousNodes(blocks) != [] {
      var cb := OfType(blocks, TYPE_PREVIOUS_NODE)[0];
      assert cb in blocks;
      var k :| 0 <= k < |blocks| && blocks[k] == cb;
      CountedOnce(blocks, k);
      assert NamesSender(blocks, k);
    }
  }

  /** In every run, a bundle that is in the store and comes again adds the node it comes from to the known holders, in memory
      and in its row; and nothing else changes. Nothing at all does if the bundle was deleted or does not say where it comes
      from. */
  lemma ComesAgain(cfg: Config, actions: seq<Action>, d: nat, b: Bundle, writing: Writing)
    requires Injective(cfg.hash) && d < |Run(cfg, EMPTY, actions).descriptors| && Found(Run(cfg, EMPTY, actions), d)
    requires SameBundle(b.primary, Run(cfg, EMPTY, actions).descriptors[d].bundle.primary)
    ensures var s := Run(cfg, EMPTY, actions);
            var x := s.descriptors[d];
            var t := Step(cfg, s, Insert(b, writing));
            var quiet := x.state.deleted || forall k :: 0 <= k < |b.extensions| ==> !NamesSender(b.extensions, k);
            && (quiet ==> t == s)
            && forall k :: 0 <= k < |b.extensions| && NamesSender(b.extensions, k) && !x.state.deleted ==>
                 var m := x.metadata.(holders := x.metadata.holders + [b.extensions[k].value.endpoint]);
                 && t.descriptors == s.descriptors[d := x.(metadata := m)]
                 && t.disk == s.disk.(rows := s.disk.rows[x.metadata.key := m])
                 && t.bundles == s.bundles && t.pending == s.pending
  {
    hide Injective, Run, EncodeBundle, Print, ID, PreviousNodes, NamesSender, Retention.Consistent, SameBundle;
    EmptySafe(cfg);
    RunSafe(cfg, EMPTY, actions);
    var s := Run(cfg, EMPTY, actions);
    assert Sound(cfg, s, d);
    SameIDExactly(b, s.descriptors[d].bundle);
    SenderExactly(b.extensions);
  }

  // ---------------------------------------------------------------- rows

  /** Rows come from insertions only: writing metadata changes a row if there is one, and never brings one back. */
  lemma RowsStay(cfg: Config, s: Store, a: Action)
    requires a.AddHolders? || a.SetMisc? || a.Operate?
    ensures var t := Step(cfg, s, a);
            && t.disk.rows.Keys == s.disk.rows.Keys && t.disk.files == s.disk.files
            && forall key :: key in s.disk.rows && t.disk.rows[key] != s.disk.rows[key] ==>
                 !a.Operate? && a.d < |s.descriptors| && key == s.descriptors[a.d].metadata.key
                 && t.disk.rows[key] == t.descriptors[a.d].metadata
  {
    hide Retention.Apply;
  }
}
