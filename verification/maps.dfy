/** The ordered associative container: a chain of nodes kept in strictly
    ascending key order with unique keys, plus a count of its nodes. */
module Maps {
  import opened Outcomes
  import opened KeyOrder
  import opened Nodes

  /** m_head and m_size. */
  datatype Map<V> = Map(head: Chain<V>, size: int)

  /** Each key is below the key of the node after it. */
  predicate Ascending<V>(c: Chain<V>)
  {
    match c
    case Null => true
    case Node(k, _, next) => (next.Node? ==> Less(k, next.key)) && Ascending(next)
  }

  /** The class invariant every public operation keeps. */
  predicate Valid<V>(m: Map<V>)
  {
    Ascending(m.head) && m.size == Length(m.head)
  }

  // ----- facts about ascending chains -----

  /** The head of an ascending chain carries its least key. */
  lemma {:induction false} HeadIsLeast<V>(c: Chain<V>, x: string)
    requires Ascending(c) && c.Node? && x in Contents(c)
    ensures x == c.key || Less(c.key, x)
  {
    if x != c.key {
      var n := c.next;
      HeadIsLeast(n, x);
      if x != n.key {
        LessTransitive(c.key, n.key, x);
      }
    }
  }

  /** A key below the head of an ascending chain is not in it. */
  lemma BelowHeadAbsent<V>(c: Chain<V>, x: string)
    requires Ascending(c) && c.Node? && Less(x, c.key)
    ensures x !in Contents(c)
  {
    if x in Contents(c) {
      HeadIsLeast(c, x);
      LessAsymmetric(x, c.key);
      LessIrreflexive(x);
    }
  }

  /** In an ascending chain the head's key does not occur again. */
  lemma HeadNotInTail<V>(c: Chain<V>)
    requires Ascending(c) && c.Node?
    ensures c.key !in Contents(c.next)
  {
    if c.next.Node? {
      BelowHeadAbsent(c.next, c.key);
    }
  }

  /** Keys along an ascending chain are strictly ascending pairwise, hence
      pairwise distinct. */
  lemma {:induction false} AscendingPairwise<V>(c: Chain<V>)
    requires Ascending(c)
    ensures forall i, j :: 0 <= i < j < |KeySeq(c)| ==> Less(KeySeq(c)[i], KeySeq(c)[j])
    ensures forall i, j :: 0 <= i < j < |KeySeq(c)| ==> KeySeq(c)[i] != KeySeq(c)[j]
  {
    if c.Node? {
      AscendingPairwise(c.next);
      var ks := KeySeq(c);
      forall i, j | 0 <= i < j < |ks|
        ensures Less(ks[i], ks[j])
      {
        if i == 0 {
          assert ks[j] in Contents(c.next) by { assert ks[j] == KeySeq(c.next)[j - 1]; }
          HeadIsLeast(c.next, ks[j]);
          if ks[j] != c.next.key {
            LessTransitive(c.key, c.next.key, ks[j]);
          }
        } else {
          assert ks[i] == KeySeq(c.next)[i - 1] && ks[j] == KeySeq(c.next)[j - 1];
        }
      }
      forall i, j | 0 <= i < j < |ks|
        ensures ks[i] != ks[j]
      {
        LessIrreflexive(ks[i]);
      }
    }
  }

  /** The number of nodes of an ascending chain is the number of keys it maps. */
  lemma {:induction false} LengthIsCount<V>(c: Chain<V>)
    requires Ascending(c)
    ensures |Contents(c)| == Length(c)
  {
    if c.Node? {
      LengthIsCount(c.next);
      HeadNotInTail(c);
      assert Contents(c).Keys == Contents(c.next).Keys + {c.key};
    }
  }

  /** A chain represents the empty mapping exactly when it has no node. */
  lemma EmptyIffNull<V>(c: Chain<V>)
    ensures Contents(c) == map[] <==> c.Null?
  {
    if c.Node? {
      assert c.key in Contents(c);
    }
  }

  /** An ascending chain is determined by the mapping it represents: the
      order of insertion leaves no trace. */
  lemma {:induction false} Canonical<V>(a: Chain<V>, b: Chain<V>)
    requires Ascending(a) && Ascending(b) && Contents(a) == Contents(b)
    ensures a == b
  {
    if a.Node? && b.Node? {
      assert a.key in Contents(b) && b.key in Contents(a);
      HeadIsLeast(a, b.key);
      HeadIsLeast(b, a.key);
      assert a.key == b.key by {
        if a.key != b.key {
          LessAsymmetric(a.key, b.key);
        }
      }
      HeadNotInTail(a);
      HeadNotInTail(b);
      assert Contents(a.next) == Contents(a) - {a.key};
      assert Contents(b.next) == Contents(b) - {b.key};
      Canonical(a.next, b.next);
    } else {
      EmptyIffNull(a);
      EmptyIffNull(b);
    }
  }

  // ----- operations -----

  /** Map(): the empty map. */
  function Empty<V>(): (m: Map<V>)
    ensures Valid(m) && m.size == 0 && Contents(m.head) == map[]
  {
    Map(Null, 0)
  }

  /** The scan of At: the first node from `c` on whose key is `key`. */
  function FindNode<V>(c: Chain<V>, key: string): (r: Result<Chain<V>>)
    ensures r.Ok? <==> key in Contents(c)
    ensures r.Ok? ==> r.value.Node? && r.value.key == key && r.value.value == Contents(c)[key]
    ensures r.Err? ==> r.error == OutOfRange
  {
    match c
    case Null => Err(OutOfRange)
    case Node(k, _, next) => if k == key then Ok(c) else FindNode(next, key)
  }

  /** At: the node holding `key`, or out_of_range. */
  function At<V>(m: Map<V>, key: string): (r: Result<Chain<V>>)
    ensures key in Contents(m.head) ==> r.Ok? && r.value.Node? && r.value.key == key && r.value.value == Contents(m.head)[key]
    ensures key !in Contents(m.head) ==> r == Err(OutOfRange)
  {
    FindNode(m.head, key)
  }

  /** ValueAt: the value stored for `key`, or out_of_range. */
  function ValueAt<V>(m: Map<V>, key: string): (r: Result<V>)
    ensures key in Contents(m.head) ==> r == Ok(Contents(m.head)[key])
    ensures key !in Contents(m.head) ==> r == Err(OutOfRange)
  {
    match At(m, key)
    case Ok(node) => Ok(node.value)
    case Err(e) => Err(e)
  }

  /** GetSize: m_size, which the invariant ties to the number of keys. */
  function GetSize<V>(m: Map<V>): (n: int)
    requires Valid(m)
    ensures n == |Contents(m.head)| && n == |KeySeq(m.head)|
  {
    LengthIsCount(m.head);
    m.size
  }

  /** IsEmpty: m_size == 0. */
  function IsEmpty<V>(m: Map<V>): (b: bool)
    requires Valid(m)
    ensures b <==> m.head == Null
    ensures b <==> Contents(m.head) == map[]
  {
    assert m.head.Node? ==> m.head.key in Contents(m.head);
    m.size == 0
  }

  /** Cases 4 and 5 of Insert. `current` holds a key below `key`; the walk
      looks at the node after it: an equal key there is overwritten in
      place, a greater key (or the end of the chain) is where a new node
      goes, and otherwise the walk moves one node on. Returns the rewired
      chain and whether a node was added. */
  function SpliceAfter<V>(current: Chain<V>, key: string, value: V): (r: (Chain<V>, bool))
    requires current.Node? && Ascending(current) && Less(current.key, key)
    ensures r.0.Node? && r.0.key == current.key && r.0.value == current.value
    ensures Ascending(r.0)
    ensures Contents(r.0) == Contents(current)[key := value]
    ensures r.1 <==> key !in Contents(current)
    ensures Length(r.0) == Length(current) + (if r.1 then 1 else 0)
    ensures !r.1 ==> KeySeq(r.0) == KeySeq(current)
    decreases Length(current)
  {
    LessIrreflexive(key);
    var next := current.next;
    if next.Null? then
      (SetNext(current, NewNode(key, value)), true)
    else if key == next.key then
      var overwritten := SetValue(next, value);
      assert Ascending(next);
      assert Ascending(next.next);
      assert Ascending(overwritten);
      (SetNext(current, overwritten), false)
    else if Less(key, next.key) then
      BelowHeadAbsent(next, key);
      (SetNext(current, NewNode(key, value, next)), true)
    else
      LessTrichotomy(key, next.key);
      var (rest, added) := SpliceAfter(next, key, value);
      (SetNext(current, rest), added)
  }

  /** Insert: overwrite the value of an existing key in place, or splice a
      new node in at the position that keeps the keys ascending. */
  function Insert<V>(m: Map<V>, key: string, value: V): (r: Map<V>)
    requires Valid(m)
    ensures Valid(r)
    ensures Contents(r.head) == Contents(m.head)[key := value]
    ensures ValueAt(r, key) == Ok(value)
    ensures forall k :: k != key ==> ValueAt(r, k) == ValueAt(m, k)
    ensures key !in Contents(m.head) ==> r.size == m.size + 1
    ensures key in Contents(m.head) ==> r.size == m.size && KeySeq(r.head) == KeySeq(m.head)
  {
    if m.head.Null? then
      // Case 1: empty list
      Map(NewNode(key, value), m.size + 1)
    else if Less(key, m.head.key) then
      // Case 2: new smallest key
      BelowHeadAbsent(m.head, key);
      Map(NewNode(key, value, m.head), m.size + 1)
    else if key == m.head.key then
      // Case 3: key at the head
      Map(SetValue(m.head, value), m.size)
    else
      // Cases 4 and 5: walk the chain
      LessTrichotomy(key, m.head.key);
      var (c, added) := SpliceAfter(m.head, key, value);
      Map(c, if added then m.size + 1 else m.size)
  }

  /** The overwrite done through At: the value of the first node whose key
      is `key` becomes `value`. */
  function SetValueAt<V>(c: Chain<V>, key: string, value: V): (r: Chain<V>)
    requires key in Contents(c)
    ensures Contents(r) == Contents(c)[key := value]
    ensures KeySeq(r) == KeySeq(c) && Length(r) == Length(c)
    ensures r.Node? && r.key == c.key
    ensures Ascending(c) ==> Ascending(r)
  {
    if c.key == key then SetValue(c, value)
    else SetNext(c, SetValueAt(c.next, key, value))
  }

  /** Update: overwrite the value of an existing key, or out_of_range. */
  function Update<V>(m: Map<V>, key: string, value: V): (r: Result<Map<V>>)
    requires Valid(m)
    ensures key !in Contents(m.head) ==> r == Err(OutOfRange)
    ensures key in Contents(m.head) ==>
              && r.Ok? && Valid(r.value) && r.value.size == m.size
              && Contents(r.value.head) == Contents(m.head)[key := value]
              && KeySeq(r.value.head) == KeySeq(m.head)
              && ValueAt(r.value, key) == Ok(value)
  {
    match At(m, key)
    case Err(e) => Err(e)
    case Ok(_) => Ok(Map(SetValueAt(m.head, key, value), m.size))
  }

  /** Clear: release every node. */
  function Clear<V>(m: Map<V>): (r: Map<V>)
    ensures Valid(r) && IsEmpty(r) && Contents(r.head) == map[]
    ensures Valid(m) && IsEmpty(m) ==> r == m
  {
    Map(Null, 0)
  }

  /** Display and operator<<: one "key:value" line per node, front to back. */
  function Lines<V>(c: Chain<V>, show: V -> string): (ls: seq<string>)
    ensures |ls| == Length(c)
    ensures forall i :: 0 <= i < |ls| ==> ls[i] == Text(Entries(c)[i].0, show(Entries(c)[i].1))
  {
    match c
    case Null => []
    case Node(k, v, next) => [Render(c, show)] + Lines(next, show)
  }

  function Display<V>(m: Map<V>, show: V -> string): (ls: seq<string>)
    requires Valid(m)
    ensures |ls| == GetSize(m)
    ensures forall i :: 0 <= i < |ls| ==> ls[i] == Text(Entries(m.head)[i].0, show(Entries(m.head)[i].1))
    ensures forall i, j :: 0 <= i < j < |ls| ==> Less(Entries(m.head)[i].0, Entries(m.head)[j].0)
  {
    AscendingPairwise(m.head);
    Lines(m.head, show)
  }

  /** Union with the right operand winning; used to describe bulk insertion. */
  lemma OverrideStep<V>(a: map<string, V>, b: map<string, V>, k: string, v: V)
    requires k !in b
    ensures a[k := v] + b == a + b[k := v]
  {
  }

  /** The loop shared by the copy constructor and operator=: Insert each
      node of `source`, front to back, into `target`. */
  method InsertEach<V>(target: Map<V>, source: Map<V>) returns (m: Map<V>)
    requires Valid(target) && Valid(source)
    ensures Valid(m)
    ensures Contents(m.head) == Contents(target.head) + Contents(source.head)
  {
    m := target;
    var current := source.head;
    while current.Node?
      invariant Valid(m) && Ascending(current)
      invariant Contents(m.head) + Contents(current) == Contents(target.head) + Contents(source.head)
      decreases Length(current)
    {
      HeadNotInTail(current);
      OverrideStep(Contents(m.head), Contents(current.next), current.key, current.value);
      m := Insert(m, current.key, current.value);
      current := current.next;
    }
  }

  /** Copy constructor: the copy has the very same chain and size. */
  method Copy<V>(other: Map<V>) returns (m: Map<V>)
    requires Valid(other)
    ensures m == other
  {
    m := InsertEach(Empty(), other);
    assert Contents(m.head) == Contents(other.head);
    Canonical(m.head, other.head);
  }

  /** operator=: `aliased` says whether the target is the source object
      itself, in which case nothing happens; otherwise the target is
      cleared and refilled from the source. */
  method Assign<V>(target: Map<V>, other: Map<V>, aliased: bool) returns (m: Map<V>)
    requires Valid(target) && Valid(other)
    requires aliased ==> target == other
    ensures m == other
  {
    if aliased {
      m := target;
    } else {
      m := InsertEach(Clear(target), other);
      assert Contents(m.head) == Contents(other.head);
      Canonical(m.head, other.head);
    }
  }

  // ----- relations between the operations -----

  /** Two maps holding the same key/value pairs display the same lines,
      whatever order the pairs were inserted in. */
  lemma DisplayDeterminedByContents<V>(a: Map<V>, b: Map<V>, show: V -> string)
    requires Valid(a) && Valid(b) && Contents(a.head) == Contents(b.head)
    ensures Display(a, show) == Display(b, show)
  {
    Canonical(a.head, b.head);
  }

  /** Update of a present key is the overwriting case of Insert. */
  lemma UpdateIsInsertWhenPresent<V>(m: Map<V>, key: string, value: V)
    requires Valid(m) && key in Contents(m.head)
    ensures Update(m, key, value) == Ok(Insert(m, key, value))
  {
    Canonical(Update(m, key, value).value.head, Insert(m, key, value).head);
  }

  /** Inserting the same pair twice is the same as inserting it once. */
  lemma InsertIdempotent<V>(m: Map<V>, key: string, value: V)
    requires Valid(m)
    ensures Insert(Insert(m, key, value), key, value) == Insert(m, key, value)
  {
    var once := Insert(m, key, value);
    Canonical(Insert(once, key, value).head, once.head);
  }

  /** Inserts of distinct keys commute. */
  lemma InsertCommutes<V>(m: Map<V>, k1: string, v1: V, k2: string, v2: V)
    requires Valid(m) && k1 != k2
    ensures Insert(Insert(m, k1, v1), k2, v2) == Insert(Insert(m, k2, v2), k1, v1)
  {
    var m1 := Insert(m, k1, v1);
    var a := Insert(m1, k2, v2);
    var m2 := Insert(m, k2, v2);
    var b := Insert(m2, k1, v1);
    var c := Contents(m.head);
    assert Contents(a.head) == c[k1 := v1][k2 := v2];
    assert Contents(b.head) == c[k2 := v2][k1 := v1];
    assert c[k1 := v1][k2 := v2] == c[k2 := v2][k1 := v1];
    Canonical(a.head, b.head);
    assert a.size == b.size;
  }
}
