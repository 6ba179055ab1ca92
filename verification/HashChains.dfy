/** One bucket of the DNS hash table, as the C code leaves it in memory.
    A bucket is the chain of nodes reached from its head by `next`; keys are pointers into the
    tables of the relay, so their text can change under the chain. */
module HashChains {

  import opened Options

  /** Where a key points: the domain of a DNS row, or the url of an ID slot. */
  datatype KeyRef = Domain(row: nat) | Url(slot: nat)

  /** Key and value of a node; `Vacant` is the node whose key and value are NULL. */
  datatype Content = Vacant | Entry(key: KeyRef, row: nat)

  /** The stored `prev` pointer. */
  datatype Link = Null | At(id: nat)

  /** A node; `id` stands for its address. */
  datatype Node = Node(id: nat, content: Content, prev: Link)

  type Chain = seq<Node>

  /** The texts that the key pointers currently show. */
  type Texts = KeyRef -> string

  /** The lookup loop: stops at a vacant node, returns the first node whose key reads `url`. */
  function Find(chain: Chain, texts: Texts, url: string): (r: Option<nat>)
    ensures r.Some? ==> r.value < |chain| && chain[r.value].content.Entry? && texts(chain[r.value].content.key) == url
  {
    if chain == [] || chain[0].content.Vacant? then None
    else if texts(chain[0].content.key) == url then Some(0)
    else match Find(chain[1..], texts, url) case None => None case Some(i) => Some(i + 1)
  }

  /** Insertion.  A vacant head is reused and cut off from what followed it.  Otherwise a new node
      goes to the end; the loop leaves in its `prev` the node before the last one. */
  function Insert(chain: Chain, id: nat, key: KeyRef, row: nat): Chain
    requires chain != []
  {
    if chain[0].content.Vacant? then [Node(chain[0].id, Entry(key, row), Null)]
    else chain + [Node(id, Entry(key, row), if |chain| == 1 then Null else At(chain[|chain| - 2].id))]
  }

  function Relink(tail: Chain, prev: Link): Chain {
    if tail == [] then [] else [tail[0].(prev := prev)] + tail[1..]
  }

  /** Position of the node with address `id`, or the length of the chain. */
  function Position(chain: Chain, id: nat): (p: nat)
    ensures p <= |chain|
    ensures p < |chain| ==> chain[p].id == id
    ensures forall i :: 0 <= i < p ==> chain[i].id != id
  {
    if chain == [] || chain[0].id == id then 0 else 1 + Position(chain[1..], id)
  }

  /** Removal of the node at position `p`.  Without `prev` the node takes over its successor, or
      becomes vacant if it has none; otherwise the successor is hung behind `prev`.  The result is
      None when `prev` no longer names a node before it in the chain: the C code then writes to,
      or goes on to read, memory it has freed. */
  function Remove(chain: Chain, p: nat): Option<Chain>
    requires p < |chain|
  {
    var node := chain[p];
    match node.prev
    case Null =>
      if p + 1 == |chain| then Some(chain[p := node.(content := Vacant)])
      else Some(chain[..p] + [node.(content := chain[p + 1].content)] + Relink(chain[p + 2..], At(node.id)))
    case At(id) =>
      var j := Position(chain[..p], id);
      if j == p then None
      else Some(chain[..j + 1] + Relink(chain[p + 1..], node.prev))
  }

  /** The entries a lookup can see. */
  function Live(chain: Chain): (s: seq<Content>)
    ensures |s| <= |chain|
  {
    if chain == [] || chain[0].content.Vacant? then [] else [chain[0].content] + Live(chain[1..])
  }

  lemma {:induction false} LiveIsAPrefix(chain: Chain)
    ensures forall i :: 0 <= i < |Live(chain)| ==> Live(chain)[i] == chain[i].content && chain[i].content.Entry?
    ensures |Live(chain)| < |chain| ==> chain[|Live(chain)|].content.Vacant?
  {
    if chain != [] && chain[0].content.Entry? {
      LiveIsAPrefix(chain[1..]);
    }
  }

  ghost predicate DistinctIds(chain: Chain) {
    forall i, j :: 0 <= i < j < |chain| ==> chain[i].id != chain[j].id
  }

  /** Lookup sees the live entries and nothing else. */
  function FindLive(s: seq<Content>, texts: Texts, url: string): (r: Option<Content>)
    ensures r.Some? ==> r.value in s && r.value.Entry? && texts(r.value.key) == url
    ensures r.None? ==> forall c :: c in s && c.Entry? ==> texts(c.key) != url
  {
    if s == [] then None
    else if s[0].Entry? && texts(s[0].key) == url then Some(s[0]) else FindLive(s[1..], texts, url)
  }

  lemma {:induction false} FindSeesLive(chain: Chain, texts: Texts, url: string)
    ensures var r := Find(chain, texts, url);
      FindLive(Live(chain), texts, url) == (if r.None? then None else Some(chain[r.value].content))
    ensures var r := Find(chain, texts, url); r.Some? ==> r.value < |Live(chain)|
  {
    if chain != [] && chain[0].content.Entry? {
      FindSeesLive(chain[1..], texts, url);
      assert Live(chain)[1..] == Live(chain[1..]);
    }
  }

  lemma {:induction false} LiveConcat(a: Chain, b: Chain)
    ensures |Live(a)| == |a| ==> Live(a + b) == Live(a) + Live(b)
    ensures |Live(a)| < |a| ==> Live(a + b) == Live(a)
  {
    if a == [] {
      assert a + b == b;
    } else {
      var rest := a[1..];
      assert (a + b)[1..] == rest + b;
      LiveConcat(rest, b);
    }
  }

  /** Insertion is felt exactly when no vacant node hides behind an occupied head. */
  lemma {:induction false} InsertIsSeen(chain: Chain, id: nat, key: KeyRef, row: nat)
    requires chain != []
    ensures var added := Live(Insert(chain, id, key, row)) == Live(chain) + [Entry(key, row)];
      added <==> (chain[0].content.Vacant? || |Live(chain)| == |chain|)
    ensures !(chain[0].content.Vacant? || |Live(chain)| == |chain|) ==>
      Live(Insert(chain, id, key, row)) == Live(chain)
  {
    if chain[0].content.Entry? {
      var n := Node(id, Entry(key, row), if |chain| == 1 then Null else At(chain[|chain| - 2].id));
      LiveConcat(chain, [n]);
      assert Live([n]) == [Entry(key, row)];
    }
  }

  lemma {:induction false} LiveRelink(tail: Chain, prev: Link)
    ensures Live(Relink(tail, prev)) == Live(tail)
  {
    if tail != [] {
      assert Relink(tail, prev)[1..] == tail[1..];
    }
  }

  function Without(s: seq<Content>, from: nat, to: nat): seq<Content>
    requires from <= to <= |s|
  {
    s[..from] + s[to..]
  }

  lemma {:induction false} LiveSplit(chain: Chain, p: nat)
    requires p < |Live(chain)|
    ensures Live(chain[..p]) == Live(chain)[..p] && |Live(chain[..p])| == p
    ensures Live(chain[p..]) == Live(chain)[p..]
    ensures Live(chain[p + 1..]) == Live(chain)[p + 1..]
  {
    LivePrefix(chain, p);
    LivePrefix(chain, p + 1);
  }

  lemma {:induction false} LivePrefix(chain: Chain, p: nat)
    requires p <= |Live(chain)|
    ensures Live(chain[..p]) == Live(chain)[..p]
    ensures Live(chain[p..]) == Live(chain)[p..]
  {
    LiveIsAPrefix(chain);
    LiveConcat(chain[..p], chain[p..]);
    assert chain == chain[..p] + chain[p..];
    AllLive(chain[..p]);
  }

  lemma {:induction false} AllLive(chain: Chain)
    requires forall i :: 0 <= i < |chain| ==> chain[i].content.Entry?
    ensures |Live(chain)| == |chain|
  {
    if chain != [] { AllLive(chain[1..]); }
  }

  /** The first position a removal at `p` takes out: `p` itself without `prev`, else the position
      behind the node `prev` names. */
  function LossStart(chain: Chain, p: nat): (from: nat)
    requires p < |chain|
    ensures from <= p + 1
    ensures Remove(chain, p).Some? ==> from <= p
  {
    if chain[p].prev.Null? then p else Position(chain[..p], chain[p].prev.id) + 1
  }

  lemma {:induction false} TakeOverSuccessor(chain: Chain, p: nat, prev: Link)
    requires p < |Live(chain)| && p + 1 < |chain|
    ensures Live(chain[..p] + [chain[p].(content := chain[p + 1].content)] + Relink(chain[p + 2..], prev))
      == Live(chain)[..p] + Live(chain)[p + 1..]
  {
    var node := chain[p].(content := chain[p + 1].content);
    var tail := chain[p + 2..];
    var rest := [node] + Relink(tail, prev);
    assert chain[..p] + [node] + Relink(tail, prev) == chain[..p] + rest;
    LiveSplit(chain, p);
    LiveConcat(chain[..p], rest);
    LiveRelink(tail, prev);
    assert rest[1..] == Relink(tail, prev);
    assert chain[p + 1..][1..] == tail;
  }

  lemma {:induction false} HangBehind(chain: Chain, j: nat, p: nat, prev: Link)
    requires j < p < |Live(chain)|
    ensures Live(chain[..j + 1] + Relink(chain[p + 1..], prev)) == Live(chain)[..j + 1] + Live(chain)[p + 1..]
  {
    LivePrefix(chain, j + 1);
    LiveSplit(chain, p);
    LiveConcat(chain[..j + 1], Relink(chain[p + 1..], prev));
    LiveRelink(chain[p + 1..], prev);
  }

  lemma {:induction false} Vacate(chain: Chain, node: Node)
    requires chain != [] && |Live(chain)| == |chain| && node.content.Vacant?
    ensures Live(chain[|chain| - 1 := node]) == Live(chain)[..|chain| - 1]
  {
    LiveSplit(chain, |chain| - 1);
    LiveConcat(chain[..|chain| - 1], [node]);
    assert chain[|chain| - 1 := node] == chain[..|chain| - 1] + [node];
  }

  /** What a removal does to the entries a lookup can see: it loses the removed entry and every
      entry between it and the node its `prev` names. */
  lemma {:induction false} RemoveLosesARange(chain: Chain, p: nat)
    requires p < |Live(chain)|
    ensures Remove(chain, p).Some? ==>
      Live(Remove(chain, p).value) == Without(Live(chain), LossStart(chain, p), p + 1)
  {
    var node := chain[p];
    if node.prev.Null? {
      if p + 1 == |chain| {
        Vacate(chain, node.(content := Vacant));
      } else {
        TakeOverSuccessor(chain, p, At(node.id));
      }
    } else {
      var j := Position(chain[..p], node.prev.id);
      if j < p {
        HangBehind(chain, j, p, node.prev);
      }
    }
  }

  /** Removal takes out the entry it is given, and no other, exactly when `prev` is NULL or names
      the node right before it.  Insertion stores the node before that one, so the third and
      later entries of a bucket take a neighbour with them. */
  lemma {:induction false} RemoveIsExact(chain: Chain, p: nat)
    requires p < |Live(chain)| && DistinctIds(chain)
    ensures (Remove(chain, p).Some? && Live(Remove(chain, p).value) == Without(Live(chain), p, p + 1))
      <==> (chain[p].prev.Null? || (p > 0 && chain[p].prev == At(chain[p - 1].id)))
  {
    var r := Remove(chain, p);
    RemoveLosesARange(chain, p);
    if r.Some? && chain[p].prev.At? {
      var j := Position(chain[..p], chain[p].prev.id);
      assert |Live(r.value)| == |Live(chain)| - (p - j);
      assert j < p && chain[j].id == chain[p].prev.id;
    }
    if p > 0 && chain[p].prev == At(chain[p - 1].id) {
      assert chain[..p][p - 1].id == chain[p].prev.id;
    }
  }

  /** Inserting an entry and removing it again: back where the bucket was, unless it held two or
      more nodes; then its last old entry is gone as well. */
  lemma {:induction false} InsertThenRemove(chain: Chain, id: nat, key: KeyRef, row: nat)
    requires chain != [] && DistinctIds(chain) && |Live(chain)| == |chain|
    ensures var inserted := Insert(chain, id, key, row);
      && |inserted| == |chain| + 1
      && Remove(inserted, |chain|).Some?
      && Live(Remove(inserted, |chain|).value) == (if |chain| == 1 then Live(chain) else Live(chain)[..|chain| - 1])
      && (|chain| > 1 ==> |Remove(inserted, |chain|).value| == |chain| - 1)
  {
    var inserted := Insert(chain, id, key, row);
    InsertIsSeen(chain, id, key, row);
    RemoveLosesARange(inserted, |chain|);
    if |chain| > 1 {
      assert inserted[..|chain|] == chain;
      assert Position(chain, chain[|chain| - 2].id) == |chain| - 2;
    }
  }

  /** A vacant node hides behind an occupied head. */
  predicate Blocked(chain: Chain) { 0 < |Live(chain)| < |chain| }

  /** What is done to a bucket: an insertion, or the removal of an entry that lookups see. */
  datatype Change = Insertion(id: nat, key: KeyRef, row: nat) | Removal(p: nat)

  predicate Applies(chain: Chain, c: Change) {
    chain != [] && (c.Removal? ==> c.p < |Live(chain)| && Remove(chain, c.p).Some?)
  }

  function Apply(chain: Chain, c: Change): Chain
    requires Applies(chain, c)
  {
    match c
    case Insertion(id, key, row) => Insert(chain, id, key, row)
    case Removal(p) => Remove(chain, p).value
  }

  lemma {:induction false} RemovalKeepsVacant(chain: Chain, p: nat)
    requires p < |Live(chain)| < |chain| && Remove(chain, p).Some?
    ensures |Live(Remove(chain, p).value)| < |Remove(chain, p).value|
  {
    RemoveLosesARange(chain, p);
    LiveIsAPrefix(chain);
    var live, from := Live(chain), LossStart(chain, p);
    assert |Without(live, from, p + 1)| == |live| - (p + 1 - from);
  }

  /** A blocked bucket: no insertion is seen, and a removal leaves it blocked or leaves no entry;
      only then is the next insertion seen again. */
  lemma {:induction false} VacantNodeBlocks(chain: Chain, c: Change, id: nat, key: KeyRef, row: nat)
    requires Blocked(chain) && Applies(chain, c)
    ensures c.Insertion? ==> Live(Apply(chain, c)) == Live(chain)
    ensures Apply(chain, c) != [] && (Blocked(Apply(chain, c)) <==> Live(Apply(chain, c)) != [])
    ensures Live(Apply(chain, c)) == [] ==> Live(Insert(Apply(chain, c), id, key, row)) == [Entry(key, row)]
  {
    match c
    case Insertion(n, k, r) => InsertIsSeen(chain, n, k, r);
    case Removal(p) => RemovalKeepsVacant(chain, p);
    var after := Apply(chain, c);
    if Live(after) == [] { InsertIsSeen(after, id, key, row); }
  }

  /** The changes are made one after the other, and none of them leaves the bucket without a live
      entry. */
  predicate NeverEmptied(chain: Chain, cs: seq<Change>)
    decreases |cs|
  {
    cs != [] ==> Applies(chain, cs[0]) && Live(Apply(chain, cs[0])) != [] && NeverEmptied(Apply(chain, cs[0]), cs[1..])
  }

  function ApplyAll(chain: Chain, cs: seq<Change>): Chain
    requires NeverEmptied(chain, cs)
    decreases |cs|
  {
    if cs == [] then chain else ApplyAll(Apply(chain, cs[0]), cs[1..])
  }

  /** So as long as removals leave the bucket an entry, whatever is inserted in between stays
      unseen: every live entry is an old one. */
  lemma {:induction false} BlockedUntilEmptied(chain: Chain, cs: seq<Change>)
    requires Blocked(chain) && NeverEmptied(chain, cs)
    ensures Blocked(ApplyAll(chain, cs))
    ensures forall c :: c in Live(ApplyAll(chain, cs)) ==> c in Live(chain)
    decreases |cs|
  {
    if cs != [] {
      var next := Apply(chain, cs[0]);
      VacantNodeBlocks(chain, cs[0], 0, Domain(0), 0);
      if cs[0].Removal? { RemoveLosesARange(chain, cs[0].p); }
      BlockedUntilEmptied(next, cs[1..]);
    }
  }

  /** Four entries inserted after a first one; removing the second and then the last reaches the
      freed node: the removal has no defined result. */
  lemma {:induction false} FreedNodeIsReached(k0: KeyRef, k1: KeyRef, k2: KeyRef, k3: KeyRef, k4: KeyRef)
    ensures var c0 := [Node(0, Entry(k0, 0), Null)];
      var c := Insert(Insert(Insert(Insert(c0, 1, k1, 1), 2, k2, 2), 3, k3, 3), 4, k4, 4);
      && Remove(c, 1).Some? && |Remove(c, 1).value| == 4
      && Remove(c, 1).value[3].content == Entry(k4, 4)
      && Remove(Remove(c, 1).value, 3).None?
  {
    var c := [Node(0, Entry(k0, 0), Null), Node(1, Entry(k1, 1), Null), Node(2, Entry(k2, 2), At(0)),
              Node(3, Entry(k3, 3), At(1)), Node(4, Entry(k4, 4), At(2))];
    var d := Remove(c, 1).value;
    assert d == [Node(0, Entry(k0, 0), Null), Node(1, Entry(k2, 2), Null),
                 Node(3, Entry(k3, 3), At(1)), Node(4, Entry(k4, 4), At(2))];
    assert d[..3][0].id != 2 && d[..3][1].id != 2 && d[..3][2].id != 2;
  }

  /** Nodes as they stand in memory after a removal without `prev`: the node keeps its place and
      takes over the successor's entry, and the one behind that points back to it. */
  lemma {:induction false} SuccessorIsTakenOver(a: Node, b: Node, c: Node, tail: Chain)
    requires a.prev == Null
    ensures Remove([a, b, c] + tail, 0) == Some([a.(content := b.content), c.(prev := At(a.id))] + tail)
    ensures Remove([a, b], 0) == Some([a.(content := b.content)])
    ensures Remove([a], 0) == Some([a.(content := Vacant)])
  {
    var chain := [a, b, c] + tail;
    assert chain[2..] == [c] + tail && ([c] + tail)[1..] == tail;
    var taken := a.(content := b.content);
    assert [] + [taken] + ([c.(prev := At(a.id))] + tail) == [taken, c.(prev := At(a.id))] + tail;
    assert [a, b][..0] + [taken] + Relink([a, b][2..], At(a.id)) == [taken];
    assert [a][0 := a.(content := Vacant)] == [a.(content := Vacant)];
  }

  /** And with `prev`: the nodes up to the one it names stay, and the successor points back there. */
  lemma {:induction false} SuccessorIsHungBehind(a: Node, between: Chain, b: Node, c: Node, tail: Chain)
    requires b.prev == At(a.id)
    ensures var chain := [a] + between + [b, c] + tail;
      Remove(chain, |between| + 1) == Some([a, c.(prev := At(a.id))] + tail)
    ensures Remove([a] + between + [b], |between| + 1) == Some([a])
  {
    var chain, last := [a] + between + [b, c] + tail, [a] + between + [b];
    assert chain[|between| + 2..] == [c] + tail && ([c] + tail)[1..] == tail;
    assert chain[..|between| + 1] == last[..|between| + 1] == [a] + between;
    assert chain[..1] == last[..1] == [a] && last[|between| + 2..] == [];
    assert chain[|between| + 1] == last[|between| + 1] == b;
    assert Position([a] + between, a.id) == 0;
    assert last[..1] + Relink([], At(a.id)) == [a];
    assert [a] + ([c.(prev := At(a.id))] + tail) == [a, c.(prev := At(a.id))] + tail;
  }

  /** An insertion reuses a vacant head; the third and later nodes point two nodes back. */
  lemma {:induction false} InsertedInMemory(a: Node, tail: Chain, b: Node, c: Node, id: nat, key: KeyRef, row: nat)
    requires a.content.Entry?
    ensures Insert([a.(content := Vacant)] + tail, id, key, row) == [Node(a.id, Entry(key, row), Null)]
    ensures Insert([a], id, key, row) == [a, Node(id, Entry(key, row), Null)]
    ensures Insert([a] + tail + [b, c], id, key, row) == [a] + tail + [b, c, Node(id, Entry(key, row), At(b.id))]
  {
    var chain := [a] + tail + [b, c];
    assert chain[|chain| - 2] == b;
  }
}
