/** The storage unit of the map: one key, one value and the link to the
    following node. A linked chain of nodes is modelled as an immutable
    list; `Null` plays the part of the null pointer that ends the chain.
    The accessors GetKey, GetValue and GetNext are the destructors `key`,
    `value` and `next`. */
module Nodes {

  datatype Chain<V> = Null | Node(key: string, value: V, next: Chain<V>)

  /** Number of nodes reachable from `c`. */
  function Length<V>(c: Chain<V>): nat
  {
    match c
    case Null => 0
    case Node(_, _, next) => 1 + Length(next)
  }

  /** Keys met walking the chain from `c` to its end. */
  function KeySeq<V>(c: Chain<V>): (ks: seq<string>)
    ensures |ks| == Length(c)
  {
    match c
    case Null => []
    case Node(k, _, next) => [k] + KeySeq(next)
  }

  /** Key/value pairs met walking the chain from `c` to its end. */
  function Entries<V>(c: Chain<V>): (es: seq<(string, V)>)
    ensures |es| == Length(c)
    ensures forall i :: 0 <= i < |es| ==> es[i].0 == KeySeq(c)[i]
  {
    match c
    case Null => []
    case Node(k, v, next) => [(k, v)] + Entries(next)
  }

  /** The mapping a chain represents: for each key, the value of the
      first node that carries it, which is the node a scan from the
      front finds. */
  function Contents<V>(c: Chain<V>): (m: map<string, V>)
    ensures m.Keys == set i | 0 <= i < |KeySeq(c)| :: KeySeq(c)[i]
  {
    match c
    case Null => map[]
    case Node(k, v, next) =>
      var rest := Contents(next);
      assert rest.Keys + {k} == set i | 0 <= i < |KeySeq(c)| :: KeySeq(c)[i] by {
        var ks := KeySeq(c);
        forall x | x in rest.Keys + {k}
          ensures x in set i | 0 <= i < |ks| :: ks[i]
        {
          if x != k {
            var j :| 0 <= j < |KeySeq(next)| && KeySeq(next)[j] == x;
            assert ks[j + 1] == x;
          } else {
            assert ks[0] == x;
          }
        }
      }
      rest[k := v]
  }

  /** Node constructor: the link defaults to the end of the chain. */
  function NewNode<V>(key: string, value: V, next: Chain<V> := Null): (n: Chain<V>)
    ensures n.Node? && n.key == key && n.value == value && n.next == next
    ensures KeySeq(n) == [key] + KeySeq(next)
    ensures Contents(n) == Contents(next)[key := value]
  {
    Node(key, value, next)
  }

  /** Replaces the stored value; the key, the link and hence the order of
      the chain are untouched. */
  function SetValue<V>(n: Chain<V>, value: V): (r: Chain<V>)
    requires n.Node?
    ensures r.Node? && r.key == n.key && r.next == n.next && r.value == value
    ensures KeySeq(r) == KeySeq(n) && Length(r) == Length(n)
    ensures Contents(r) == Contents(n)[n.key := value]
  {
    n.(value := value)
  }

  /** Rewires the link; key and value are untouched. */
  function SetNext<V>(n: Chain<V>, next: Chain<V>): (r: Chain<V>)
    requires n.Node?
    ensures r.Node? && r.key == n.key && r.value == n.value && r.next == next
    ensures KeySeq(r) == [n.key] + KeySeq(next)
    ensures Length(r) == 1 + Length(next)
  {
    n.(next := next)
  }

  /** The "key:value" format of a node, given the textual form of its value. */
  function Text(key: string, shown: string): string
  {
    key + ":" + shown
  }

  /** operator<< on a node. */
  function Render<V>(n: Chain<V>, show: V -> string): (s: string)
    requires n.Node?
    ensures |s| == |n.key| + 1 + |show(n.value)|
    ensures s[..|n.key|] == n.key && s[|n.key|] == ':' && s[|n.key| + 1..] == show(n.value)
  {
    Text(n.key, show(n.value))
  }

  /** Reads a rendering back: the text before the first ':' and the text after it. */
  function SplitAtColon(s: string): (string, string)
  {
    if s == [] then ([], [])
    else if s[0] == ':' then ([], s[1..])
    else
      var (before, after) := SplitAtColon(s[1..]);
      ([s[0]] + before, after)
  }

  /** A rendering whose key holds no ':' splits back into key and value text. */
  lemma {:induction false} TextSplits(key: string, shown: string)
    requires ':' !in key
    ensures SplitAtColon(Text(key, shown)) == (key, shown)
  {
    if key != [] {
      var s := Text(key, shown);
      assert s[0] == key[0] && key[0] != ':' by { assert key[0] in key; }
      assert s[1..] == Text(key[1..], shown);
      TextSplits(key[1..], shown);
      assert key == [key[0]] + key[1..];
    }
  }

  lemma RenderSplits<V>(n: Chain<V>, show: V -> string)
    requires n.Node? && ':' !in n.key
    ensures SplitAtColon(Render(n, show)) == (n.key, show(n.value))
  {
    TextSplits(n.key, show(n.value));
  }
}
