/**
 * Node labels and link indices for the diagram.  The labels are the distinct teams
 * of the `Team_from` column followed by those of the `Team_to` column, in order of
 * first appearance (`pd.concat([source, target]).unique()`); each label is numbered
 * by its position (`{label: index for index, label in enumerate(labels)}`), and each
 * aggregated edge becomes a link between the numbers of its two teams.
 */
module Labels {
  import opened Groups

  predicate NoDup<T(==)>(s: seq<T>)
  {
    forall i, j :: 0 <= i < j < |s| ==> s[i] != s[j]
  }

  /** The position of the first occurrence of `x` in `s`. */
  function FirstIndex<T(==)>(s: seq<T>, x: T): (i: nat)
    requires x in s
    ensures i < |s| && s[i] == x
    ensures forall j :: 0 <= j < i ==> s[j] != x
  {
    if s[0] == x then 0 else 1 + FirstIndex(s[1..], x)
  }

  /** `Series.unique()`: the distinct values of `s`, in order of first appearance. */
  function Unique(s: seq<string>): (u: seq<string>)
    ensures NoDup(u)
    ensures forall x :: x in u <==> x in s
  {
    if s == [] then []
    else
      var front := Unique(s[..|s| - 1]);
      var x := s[|s| - 1];
      assert s == s[..|s| - 1] + [x];
      if x in front then front else front + [x]
  }

  /** Distinct values keep the order of their first appearances in `s`. */
  lemma {:induction false} UniqueFirstSeen(s: seq<string>)
    ensures forall i, j :: 0 <= i < j < |Unique(s)| ==>
      FirstIndex(s, Unique(s)[i]) < FirstIndex(s, Unique(s)[j])
    decreases |s|
  {
    if s != [] {
      var front, x := s[..|s| - 1], s[|s| - 1];
      UniqueFirstSeen(front);
      var u, uf := Unique(s), Unique(front);
      forall y | y in front
        ensures FirstIndex(s, y) == FirstIndex(front, y)
      {
        var k := FirstIndex(front, y);
        assert s[k] == y;
        assert forall j :: 0 <= j < k ==> s[j] == front[j];
      }
      if x !in front {
        assert u == uf + [x];
        assert FirstIndex(s, x) == |s| - 1;
        forall i, j | 0 <= i < j < |u|
          ensures FirstIndex(s, u[i]) < FirstIndex(s, u[j])
        {
          if j < |uf| {
            assert u[i] == uf[i] && u[j] == uf[j];
          } else {
            assert u[i] == uf[i] && u[i] in front;
          }
        }
      }
    }
  }

  /** The `Team_from` column. */
  function Sources(edges: seq<Edge>): (s: seq<string>)
    ensures |s| == |edges| && forall i :: 0 <= i < |edges| ==> s[i] == edges[i].from
  {
    seq(|edges|, i requires 0 <= i < |edges| => edges[i].from)
  }

  /** The `Team_to` column. */
  function Targets(edges: seq<Edge>): (s: seq<string>)
    ensures |s| == |edges| && forall i :: 0 <= i < |edges| ==> s[i] == edges[i].to
  {
    seq(|edges|, i requires 0 <= i < |edges| => edges[i].to)
  }

  /** `list(pd.concat([source, target]).unique())`. */
  function NodeLabels(edges: seq<Edge>): seq<string>
  {
    Unique(Sources(edges) + Targets(edges))
  }

  /** `{label: index for index, label in enumerate(labels)}`: a later label of the
      same name overwrites an earlier one, as a dict comprehension does. */
  function IndexMap(labels: seq<string>): (m: map<string, nat>)
    ensures forall l :: l in m <==> l in labels
    ensures forall l :: l in m ==> m[l] < |labels| && labels[m[l]] == l
  {
    if labels == [] then map[]
    else
      var n := |labels|;
      assert labels == labels[..n - 1] + [labels[n - 1]];
      IndexMap(labels[..n - 1])[labels[n - 1] := n - 1]
  }

  /** On distinct labels the index map is a bijection onto `0 .. |labels| - 1`: every
      label maps to its own position. */
  lemma IndexMapBijective(labels: seq<string>)
    requires NoDup(labels)
    ensures forall i :: 0 <= i < |labels| ==>
      labels[i] in IndexMap(labels) && IndexMap(labels)[labels[i]] == i
    ensures forall l1, l2 :: l1 in IndexMap(labels) && l2 in IndexMap(labels) && l1 != l2 ==>
      IndexMap(labels)[l1] != IndexMap(labels)[l2]
  {
    var m := IndexMap(labels);
    forall i | 0 <= i < |labels|
      ensures labels[i] in m && m[labels[i]] == i
    {
      assert labels[i] in m;
      var k := m[labels[i]];
      assert labels[k] == labels[i];
    }
  }

  /** A link of the diagram: the indices of the two teams, the weight and the names
      shown on hover. */
  datatype Link = Link(source: nat, target: nat, value: nat, people: seq<string>)

  /** The diagram's nodes and links. */
  datatype Diagram = Diagram(labels: seq<string>, links: seq<Link>)

  /** `source.map(label_to_index)` and `target.map(label_to_index)`, link by link. */
  function Links(edges: seq<Edge>, index: map<string, nat>): (links: seq<Link>)
    requires forall e :: e in edges ==> e.from in index && e.to in index
    ensures |links| == |edges|
  {
    seq(|edges|, i requires 0 <= i < |edges| =>
      Link(index[edges[i].from], index[edges[i].to], edges[i].count, edges[i].people))
  }

  /** The diagram drawn from aggregated edges. */
  function Draw(edges: seq<Edge>): Diagram
  {
    var labels := NodeLabels(edges);
    var index := IndexMap(labels);
    assert forall e :: e in edges ==> e.from in Sources(edges) && e.to in Targets(edges);
    Diagram(labels, Links(edges, index))
  }

  /** The labels are distinct and are exactly the teams of the edges. */
  lemma NodeLabelsSpec(edges: seq<Edge>)
    ensures NoDup(NodeLabels(edges))
    ensures forall t :: t in NodeLabels(edges) <==> exists e :: e in edges && (t == e.from || t == e.to)
  {
    var st := Sources(edges) + Targets(edges);
    forall t | t in NodeLabels(edges)
      ensures exists e :: e in edges && (t == e.from || t == e.to)
    {
      var k :| 0 <= k < |st| && st[k] == t;
      if k < |edges| { assert edges[k] in edges; } else { assert edges[k - |edges|] in edges; }
    }
    forall e | e in edges
      ensures e.from in NodeLabels(edges) && e.to in NodeLabels(edges)
    {
      var k :| 0 <= k < |edges| && edges[k] == e;
      assert st[k] == e.from && st[|edges| + k] == e.to;
    }
  }

  /** The labels are distinct and are exactly the teams of the edges, sources first;
      link `i` joins the nodes labelled with edge `i`'s teams and carries its weight
      and people; so a proper edge gives a link between two different nodes with a
      positive weight. */
  lemma DrawSpec(edges: seq<Edge>)
    ensures NoDup(Draw(edges).labels)
    ensures forall t :: t in Draw(edges).labels <==>
      exists e :: e in edges && (t == e.from || t == e.to)
    ensures |Draw(edges).links| == |edges|
    ensures forall i :: 0 <= i < |edges| ==>
      var l := Draw(edges).links[i];
      && l.source < |Draw(edges).labels| && Draw(edges).labels[l.source] == edges[i].from
      && l.target < |Draw(edges).labels| && Draw(edges).labels[l.target] == edges[i].to
      && l.value == edges[i].count && l.people == edges[i].people
      && (Proper(edges[i]) ==> l.source != l.target && l.value >= 1)
  {
    NodeLabelsSpec(edges);
  }
}
