/** The ordering invariant of the column store: the columns of one board are
    linked by their `nextId` pointers into a single simple chain that ends in
    `null`. A chain is described by the list of its ids, head first. */
module ColumnChain {

  import opened Wrappers
  import Keyed
  import opened Columns

  ghost predicate Distinct(s: seq<int>)
  {
    forall i, j :: 0 <= i < j < |s| ==> s[i] != s[j]
  }

  /** Every id of `s` is a column whose `nextId` is the following id, and the
      last one's is `end`. */
  ghost predicate LinkedTo(m: map<int, Column>, s: seq<int>, end: Option<int>)
  {
    && (forall i :: 0 <= i < |s| ==> s[i] in m)
    && (forall i, j :: 0 <= i && j == i + 1 && j < |s| ==> m[s[i]].nextId == Some(s[j]))
    && (s != [] ==> m[s[|s| - 1]].nextId == end)
  }

  /** The columns of board `b` form the single chain `order`, ending in `null`. */
  ghost predicate IsChain(m: map<int, Column>, b: int, order: seq<int>)
  {
    && Distinct(order)
    && (forall k :: k in order <==> k in m && m[k].boardId == b)
    && LinkedTo(m, order, None)
  }

  /** No column points at a column of another board (or at a missing id). */
  ghost predicate PointersStayInBoard(m: map<int, Column>)
  {
    forall k :: k in m && m[k].nextId.Some? ==>
      m[k].nextId.value in m && m[m[k].nextId.value].boardId == m[k].boardId
  }

  /** The columns along a chain, head first. */
  function ColumnsAlong(m: map<int, Column>, order: seq<int>): (r: seq<Column>)
    requires forall i :: 0 <= i < |order| ==> order[i] in m
    ensures |r| == |order| && forall i :: 0 <= i < |order| ==> r[i] == m[order[i]]
  {
    seq(|order|, i requires 0 <= i < |order| => m[order[i]])
  }

  function IndexOf(s: seq<int>, x: int): (i: nat)
    requires x in s
    ensures i < |s| && s[i] == x && x !in s[..i]
    decreases |s|
  {
    if s[0] == x then 0 else 1 + IndexOf(s[1..], x)
  }

  /** The chain with `x` taken out. */
  function Without(s: seq<int>, x: int): (r: seq<int>)
    ensures forall k :: k in r <==> k in s && k != x
    decreases |s|
  {
    if s == [] then [] else if s[0] == x then Without(s[1..], x) else [s[0]] + Without(s[1..], x)
  }

  /** The order a move is meant to produce: `x` taken out and put back right
      before `target`, or at the end when `target` is `None`. */
  function Moved(s: seq<int>, x: int, target: Option<int>): (r: seq<int>)
    requires target.Some? ==> target.value in s && target.value != x
  {
    var o := Without(s, x);
    match target
    case None => o + [x]
    case Some(n) =>
      var j := IndexOf(o, n);
      o[..j] + [x] + o[j..]
  }

  // ---- facts about sequences of ids --------------------------------------------

  lemma {:induction false} WithoutSplit(s: seq<int>, i: int)
    requires Distinct(s) && 0 <= i < |s|
    ensures Without(s, s[i]) == s[..i] + s[i + 1..]
    decreases |s|
  {
    if i > 0 {
      WithoutSplit(s[1..], i - 1);
      assert s[1..][..i - 1] == s[1..i];
      assert s[1..][i..] == s[i + 1..];
      assert s[0] != s[i];
    } else {
      WithoutAbsent(s[1..], s[0]);
    }
  }

  lemma {:induction false} WithoutAbsent(s: seq<int>, x: int)
    requires x !in s
    ensures Without(s, x) == s
    decreases |s|
  {
    if s != [] {
      WithoutAbsent(s[1..], x);
    }
  }

  lemma IndexOfDistinct(s: seq<int>, i: int)
    requires Distinct(s) && 0 <= i < |s|
    ensures IndexOf(s, s[i]) == i
  {
  }

  lemma DistinctCut(s: seq<int>, i: int)
    requires Distinct(s) && 0 <= i < |s|
    ensures Distinct(s[..i] + s[i + 1..]) && s[i] !in s[..i] + s[i + 1..]
  {
    var o := s[..i] + s[i + 1..];
    forall a | 0 <= a < |o| ensures o[a] == s[if a < i then a else a + 1] {
    }
  }

  lemma DistinctInsert(o: seq<int>, j: int, x: int)
    requires Distinct(o) && x !in o && 0 <= j <= |o|
    ensures Distinct(o[..j] + [x] + o[j..])
  {
    var r := o[..j] + [x] + o[j..];
    forall a | 0 <= a < |r| ensures r[a] == if a < j then o[a] else if a == j then x else o[a - 1] {
    }
  }

  lemma CutAt(s: seq<int>, i: int)
    requires 0 <= i < |s|
    ensures var w := s[..i] + s[i + 1..];
      |w| == |s| - 1 && forall q :: 0 <= q < |w| ==> w[q] == s[if q < i then q else q + 1]
  {
  }

  lemma InsertAt(w: seq<int>, j: int, x: int)
    requires 0 <= j <= |w|
    ensures var o := w[..j] + [x] + w[j..];
      |o| == |w| + 1 && forall p :: 0 <= p < |o| ==> o[p] == if p < j then w[p] else if p == j then x else w[p - 1]
  {
  }

  /** `Moved` before the `j`-th id: the id taken out, and put back at the
      target's position in what is left. */
  lemma MovedBefore(s: seq<int>, i: int, j: int, q: int)
    requires Distinct(s) && 0 <= i < |s| && 0 <= j < |s| && i != j
    requires q == (if j < i then j else j - 1)
    ensures var w := s[..i] + s[i + 1..];
      0 <= q < |w| && Moved(s, s[i], Some(s[j])) == w[..q] + [s[i]] + w[q..]
  {
    var w := Without(s, s[i]);
    WithoutSplit(s, i);
    DistinctCut(s, i);
    assert w[q] == s[j];
    IndexOfDistinct(w, q);
  }

  /** `Moved` keeps every id exactly once and puts `x` right before `target`,
      or last when `target` is `None`. */
  lemma MovedPlacesColumn(s: seq<int>, x: int, target: Option<int>)
    requires Distinct(s) && x in s
    requires target.Some? ==> target.value in s && target.value != x
    ensures var r := Moved(s, x, target);
      && Distinct(r) && |r| == |s| && (forall k :: k in r <==> k in s)
      && (target.None? ==> r[|r| - 1] == x)
      && (target.Some? ==> exists j :: 0 <= j < |r| - 1 && r[j] == x && r[j + 1] == target.value)
  {
    var i := IndexOf(s, x);
    WithoutSplit(s, i);
    DistinctCut(s, i);
    var o := Without(s, x);
    match target {
      case None =>
        DistinctInsert(o, |o|, x);
        assert o[..|o|] + [x] + o[|o|..] == o + [x];
      case Some(n) =>
        var j := IndexOf(o, n);
        DistinctInsert(o, j, x);
        var r := o[..j] + [x] + o[j..];
        assert r[j] == x && r[j + 1] == n;
    }
  }

  // ---- what `find` returns on a well-formed chain ------------------------------

  /** Columns drawn from the record, holding every column of the chain. */
  ghost predicate Covers(cs: seq<Column>, m: map<int, Column>, order: seq<int>)
  {
    && (forall c :: c in cs ==> c.id in m && m[c.id] == c)
    && (forall k :: k in order ==> k in m && m[k] in cs)
  }

  lemma ChainIsKeyed(m: map<int, Column>, b: int, order: seq<int>, t: int)
    requires KeyedById(m) && IsChain(m, b, order) && 0 <= t < |order|
    ensures m[order[t]].id == order[t] && m[order[t]].boardId == b
    ensures m[order[t]].nextId == if t + 1 < |order| then Some(order[t + 1]) else None
  {
    assert order[t] in order;
    if t + 1 < |order| {
      assert m[order[t]].nextId == Some(order[t + 1]);
    }
  }

  /** The column that points at the `t`-th column of a chain is the one
      before it, and nothing points at the head. */
  lemma FindPredecessor(cs: seq<Column>, m: map<int, Column>, b: int, order: seq<int>, t: int)
    requires KeyedById(m) && IsChain(m, b, order) && 0 <= t < |order|
    requires Covers(cs, m, order)
    requires forall c :: c in cs && c.nextId.Some? && c.nextId.value in order ==> c.boardId == b
    ensures Find(cs, PointsTo(order[t])) == if t == 0 then None else Some(m[order[t - 1]])
  {
    forall c | c in cs && Matches(c, PointsTo(order[t]))
      ensures t > 0 && c == m[order[t - 1]]
    {
      assert order[t] in order;
      assert c.id in order;
      var s := IndexOf(order, c.id);
      ChainIsKeyed(m, b, order, s);
      assert s + 1 < |order| && order[s + 1] == order[t];
      assert s + 1 == t;
    }
    if t > 0 {
      ChainIsKeyed(m, b, order, t - 1);
      assert order[t - 1] in order;
      assert Matches(m[order[t - 1]], PointsTo(order[t]));
    }
  }

  /** The column of board `b` whose `nextId` is `null` is the last of its chain. */
  lemma FindTail(cs: seq<Column>, m: map<int, Column>, b: int, order: seq<int>)
    requires KeyedById(m) && IsChain(m, b, order) && order != []
    requires Covers(cs, m, order)
    ensures Find(cs, TailOf(b)) == Some(m[order[|order| - 1]])
  {
    forall c | c in cs && Matches(c, TailOf(b))
      ensures c == m[order[|order| - 1]]
    {
      assert c.id in order;
      var s := IndexOf(order, c.id);
      ChainIsKeyed(m, b, order, s);
    }
    ChainIsKeyed(m, b, order, |order| - 1);
    assert order[|order| - 1] in order;
  }

  /** Among the columns of one board, `!column.nextId` picks the last of the
      chain, provided no id of the chain is 0. */
  lemma FindFalsy(cs: seq<Column>, m: map<int, Column>, b: int, order: seq<int>)
    requires KeyedById(m) && IsChain(m, b, order) && 0 !in order
    requires Covers(cs, m, order)
    requires forall c :: c in cs ==> c.boardId == b
    ensures Find(cs, Falsy) == if order == [] then None else Some(m[order[|order| - 1]])
  {
    assert forall t :: 0 <= t < |order| ==> order[t] != 0;
    forall c | c in cs && Matches(c, Falsy)
      ensures order != [] && c == m[order[|order| - 1]]
    {
      assert c.id in order;
      var s := IndexOf(order, c.id);
      ChainIsKeyed(m, b, order, s);
    }
    if order != [] {
      ChainIsKeyed(m, b, order, |order| - 1);
      assert order[|order| - 1] in order;
    }
  }
}
