/** KeyRecommander::MinimumEditDist: the table of distances between prefixes, and what its last entry means. */
module EditDistance {
  import opened Letters

  // ----- the distance -----

  function Cost<T(==)>(x: T, y: T): nat { if x == y then 0 else 1 }

  function Min(x: int, y: int): int { if x < y then x else y }

  /** The recursive Levenshtein distance. */
  function Lev<T(==)>(a: seq<T>, b: seq<T>): nat
    decreases |a| + |b|
  {
    if a == [] then |b| else if b == [] then |a| else
      Min(Lev(Init(a), b) + 1, Min(Lev(a, Init(b)) + 1, Lev(Init(a), Init(b)) + Cost(Last(a), Last(b))))
  }

  function Init<T>(a: seq<T>): seq<T>
    requires a != []
  {
    a[..|a| - 1]
  }

  function Last<T>(a: seq<T>): T
    requires a != []
  {
    a[|a| - 1]
  }

  lemma {:induction false} Symmetric<T>(a: seq<T>, b: seq<T>)
    ensures Lev(a, b) == Lev(b, a)
    decreases |a| + |b|
  {
    if a != [] && b != [] {
      Symmetric(Init(a), b);
      Symmetric(a, Init(b));
      Symmetric(Init(a), Init(b));
    }
  }

  lemma {:induction false} Bounds<T>(a: seq<T>, b: seq<T>)
    ensures |a| - |b| <= Lev(a, b) && |b| - |a| <= Lev(a, b) && Lev(a, b) <= |a| + |b|
    decreases |a| + |b|
  {
    if a != [] && b != [] {
      Bounds(Init(a), b);
      Bounds(a, Init(b));
      Bounds(Init(a), Init(b));
    }
  }

  lemma {:induction false} ZeroToItself<T>(a: seq<T>)
    ensures Lev(a, a) == 0
  {
    if a != [] { ZeroToItself(Init(a)); }
  }

  lemma InitLast<T>(a: seq<T>)
    requires a != []
    ensures Init(a) + [Last(a)] == a
  {
  }

  lemma {:induction false} EqualWhenZero<T>(a: seq<T>, b: seq<T>)
    requires Lev(a, b) == 0
    ensures a == b
    decreases |a|
  {
    if a != [] && b != [] {
      hide Last;
      assert Lev(Init(a), Init(b)) == 0 && Last(a) == Last(b);
      EqualWhenZero(Init(a), Init(b));
      InitLast(a);
      InitLast(b);
    }
  }

  lemma ZeroIffEqual<T>(a: seq<T>, b: seq<T>)
    ensures Lev(a, b) == 0 <==> a == b
  {
    ZeroToItself(a);
    if Lev(a, b) == 0 { EqualWhenZero(a, b); }
  }

  /** The triangle inequality, by the last step of the best way from a to b and from b to c. */
  lemma {:induction false} Triangle<T>(a: seq<T>, b: seq<T>, c: seq<T>)
    ensures Lev(a, c) <= Lev(a, b) + Lev(b, c)
    decreases |a| + |b| + |c|
  {
    Bounds(a, b);
    Bounds(b, c);
    Bounds(a, c);
    if a != [] && b != [] && c != [] {
      var a', b', c' := Init(a), Init(b), Init(c);
      if Lev(a, b) == Lev(a', b) + 1 {
        Triangle(a', b, c);
      } else if Lev(b, c) == Lev(b, c') + 1 {
        Triangle(a, b, c');
      } else if Lev(a, b) == Lev(a, b') + 1 && Lev(b, c) == Lev(b', c) + 1 {
        Triangle(a, b', c);
      } else if Lev(a, b) == Lev(a, b') + 1 {
        Triangle(a, b', c');
      } else if Lev(b, c) == Lev(b', c) + 1 {
        Triangle(a', b', c);
      } else {
        Triangle(a', b', c');
      }
    }
  }

  // ----- the least number of single-letter edits -----

  datatype Edit<T> = Insert(at: nat, x: T) | Delete(at: nat) | Replace(at: nat, x: T)

  predicate Fits<T>(e: Edit<T>, s: seq<T>) {
    if e.Insert? then e.at <= |s| else e.at < |s|
  }

  function Apply<T>(e: Edit<T>, s: seq<T>): seq<T>
    requires Fits(e, s)
  {
    match e
    case Insert(i, x) => s[..i] + [x] + s[i..]
    case Delete(i) => s[..i] + s[i + 1..]
    case Replace(i, x) => s[i := x]
  }

  /** The edits, one after the other, make b of a. */
  predicate Turns<T(==)>(script: seq<Edit<T>>, a: seq<T>, b: seq<T>) {
    if script == [] then a == b else Fits(script[0], a) && Turns(script[1..], Apply(script[0], a), b)
  }

  lemma {:induction false} SameTail<T>(a: seq<T>, b: seq<T>, q: seq<T>)
    ensures Lev(a + q, b + q) <= Lev(a, b)
  {
    if q == [] {
      assert a + q == a && b + q == b;
    } else {
      SameTail(a, b, Init(q));
      assert Init(a + q) == a + Init(q) && Init(b + q) == b + Init(q);
    }
  }

  /** Where only the middle differs. */
  lemma SameAround<T>(s: seq<T>, t: seq<T>, p: seq<T>, u: seq<T>, v: seq<T>, q: seq<T>)
    requires s == p + u + q && t == p + v + q
    ensures Lev(s, t) <= Lev(p + u, p + v)
  {
    SameTail(p + u, p + v, q);
  }

  lemma OneEdit<T>(e: Edit<T>, s: seq<T>)
    requires Fits(e, s)
    ensures Lev(s, Apply(e, s)) <= 1
  {
    hide Lev;
    var p := s[..e.at];
    assert p + [] == p;
    match e
    case Insert(i, x) =>
      OneMore(p, x);
      SameAround(s, Apply(e, s), p, [], [x], s[i..]);
    case Delete(i) =>
      OneMore(p, s[i]);
      SameAround(s, Apply(e, s), p, [s[i]], [], s[i + 1..]);
    case Replace(i, x) =>
      OneOther(p, s[i], x);
      SameAround(s, Apply(e, s), p, [s[i]], [x], s[i + 1..]);
  }

  lemma OneOther<T>(p: seq<T>, x: T, y: T)
    ensures Lev(p + [x], p + [y]) <= 1
  {
    ZeroToItself(p);
    assert Init(p + [x]) == p && Init(p + [y]) == p;
  }

  lemma OneMore<T>(p: seq<T>, x: T)
    ensures Lev(p, p + [x]) <= 1 && Lev(p + [x], p) <= 1
  {
    ZeroToItself(p);
    assert Init(p + [x]) == p;
  }

  /** No script is shorter than the distance. */
  lemma {:induction false} NoFewerEdits<T>(script: seq<Edit<T>>, a: seq<T>, b: seq<T>)
    requires Turns(script, a, b)
    ensures Lev(a, b) <= |script|
  {
    if script == [] {
      ZeroToItself(a);
    } else {
      var s := Apply(script[0], a);
      OneEdit(script[0], a);
      NoFewerEdits(script[1..], s, b);
      Triangle(a, s, b);
    }
  }

  /** A script works the same in front of one more letter. */
  lemma {:induction false} InFront<T>(script: seq<Edit<T>>, a: seq<T>, b: seq<T>, x: T)
    requires Turns(script, a, b)
    ensures Turns(script, a + [x], b + [x])
  {
    hide Apply;
    if script != [] {
      ApplyInFront(script[0], a, x);
      InFront(script[1..], Apply(script[0], a), b, x);
    }
  }

  lemma ApplyInFront<T>(e: Edit<T>, a: seq<T>, x: T)
    requires Fits(e, a)
    ensures Fits(e, a + [x]) && Apply(e, a + [x]) == Apply(e, a) + [x]
  {
    match e
    case Insert(_, _) => case Delete(_) => case Replace(_, _) =>
  }

  lemma {:induction false} OneMoreEdit<T>(script: seq<Edit<T>>, a: seq<T>, b: seq<T>, e: Edit<T>)
    requires Turns(script, a, b) && Fits(e, b)
    ensures Turns(script + [e], a, Apply(e, b))
  {
    var longer := script + [e];
    if script == [] {
      assert longer[1..] == [];
    } else {
      OneMoreEdit(script[1..], Apply(script[0], a), b, e);
      assert longer[1..] == script[1..] + [e];
    }
  }

  lemma ThenInsert<T>(script: seq<Edit<T>>, a: seq<T>, b: seq<T>) returns (r: seq<Edit<T>>)
    requires b != [] && Turns(script, a, Init(b))
    ensures Turns(r, a, b) && |r| == |script| + 1
  {
    var e := Insert(|b| - 1, Last(b));
    OneMoreEdit(script, a, Init(b), e);
    assert Apply(e, Init(b)) == b;
    r := script + [e];
  }

  lemma ThenDelete<T>(script: seq<Edit<T>>, a: seq<T>, b: seq<T>) returns (r: seq<Edit<T>>)
    requires a != [] && Turns(script, Init(a), b)
    ensures Turns(r, a, b) && |r| == |script| + 1
  {
    var e := Delete(|b|);
    InFront(script, Init(a), b, Last(a));
    InitLast(a);
    OneMoreEdit(script, a, b + [Last(a)], e);
    assert Apply(e, b + [Last(a)]) == b;
    r := script + [e];
  }

  lemma ThenReplace<T>(script: seq<Edit<T>>, a: seq<T>, b: seq<T>) returns (r: seq<Edit<T>>)
    requires a != [] && b != [] && Turns(script, Init(a), Init(b))
    ensures Turns(r, a, b) && |r| == |script| + Cost(Last(a), Last(b))
  {
    InFront(script, Init(a), Init(b), Last(a));
    InitLast(a);
    InitLast(b);
    r := script;
    if Last(a) != Last(b) {
      var e := Replace(|b| - 1, Last(b));
      OneMoreEdit(script, a, Init(b) + [Last(a)], e);
      assert Apply(e, Init(b) + [Last(a)]) == b;
      r := script + [e];
    }
  }

  /** Some script is as short as the distance. */
  lemma {:induction false} FewestEdits<T>(a: seq<T>, b: seq<T>) returns (script: seq<Edit<T>>)
    ensures Turns(script, a, b) && |script| == Lev(a, b)
    decreases |a| + |b|
  {
    hide Turns, Last;
    if a == [] && b == [] {
      script := NoEdits(a);
    } else if a == [] || (b != [] && Lev(a, b) == Lev(a, Init(b)) + 1) {
      script := FewestEdits(a, Init(b));
      script := ThenInsert(script, a, b);
    } else if b == [] || Lev(a, b) == Lev(Init(a), b) + 1 {
      script := FewestEdits(Init(a), b);
      script := ThenDelete(script, a, b);
    } else {
      script := FewestEdits(Init(a), Init(b));
      script := ThenReplace(script, a, b);
    }
  }

  lemma NoEdits<T>(a: seq<T>) returns (script: seq<Edit<T>>)
    ensures Turns(script, a, a) && script == []
  {
    script := [];
  }

  // ----- the table -----

  /** The distance between words, as letters of the width that rhs begins with. */
  ghost function Between(sought: string, rhs: string): nat
    requires CharLen(rhs) != -1
  {
    Lev(Whole(sought, CharLen(rhs)), Whole(rhs, CharLen(rhs)))
  }

  lemma EntryStep<T>(a: seq<T>, b: seq<T>, i: nat, j: nat)
    requires i < |a| && j < |b|
    ensures Lev(a[..i + 1], b[..j + 1]) ==
      Min(Lev(a[..i], b[..j + 1]) + 1, Min(Lev(a[..i + 1], b[..j]) + 1, Lev(a[..i], b[..j]) + Cost(a[i], b[j])))
  {
    InitOf(a, i);
    InitOf(b, j);
    LevUnfolds(a[..i + 1], b[..j + 1]);
    hide Lev, Init, Min, Cost;
  }

  lemma LevUnfolds<T>(a: seq<T>, b: seq<T>)
    requires a != [] && b != []
    ensures Lev(a, b) ==
      Min(Lev(Init(a), b) + 1, Min(Lev(a, Init(b)) + 1, Lev(Init(a), Init(b)) + Cost(Last(a), Last(b))))
  {
    hide Init, Min, Cost;
  }

  lemma InitOf<T>(a: seq<T>, i: nat)
    requires i < |a|
    ensures Init(a[..i + 1]) == a[..i]
  {
  }

  /** The entries of a row up to column j are right. */
  ghost predicate RowIs<T>(d: array2<int>, a: seq<T>, b: seq<T>, i: nat, j: nat)
    requires i <= |a| && j <= |b| + 1 && d.Length0 == |a| + 1 && d.Length1 == |b| + 1
    reads d
  {
    forall y :: 0 <= y < j ==> d[i, y] == Lev(a[..i], b[..y])
  }

  /** MinimumEditDist as it is meant: both borders are filled to their ends and the inner loop starts at column 1. */
  method MinimumEditDist(sought: string, rhs: string) returns (distance: int)
    requires CharLen(rhs) != -1
    ensures distance == Between(sought, rhs)
  {
    var w := CharLen(rhs);
    ghost var a, b := Whole(sought, w), Whole(rhs, w);
    var m, n := |sought| / w, |rhs| / w;
    if m * n == 0 {
      return m + n;
    }
    var d := new int[m + 1, n + 1];
    for j := 0 to n + 1
      invariant RowIs(d, a, b, 0, j)
    {
      d[0, j] := j;
    }
    for i := 1 to m + 1
      invariant RowIs(d, a, b, i - 1, n + 1)
    {
      NextRow(d, a, b, i, sought, rhs, w);
    }
    assert a[..m] == a && b[..n] == b;
    return d[m, n];
  }

  /** The comparison of two letters in the loop. */
  method SameLetter(sought: string, i: nat, rhs: string, j: nat, w: nat) returns (same: bool)
    requires (w == 1 || w == 3) && i < |Whole(sought, w)| && j < |Whole(rhs, w)|
    ensures same <==> Whole(sought, w)[i] == Whole(rhs, w)[j]
  {
    WholeAt(sought, w, i);
    WholeAt(rhs, w, j);
    same := sought[i * w..i * w + w] == rhs[j * w..j * w + w];
  }

  /** Row i of the table from row i - 1, its first entry set as the border loop does. */
  method NextRow(d: array2<int>, ghost a: seq<string>, ghost b: seq<string>, i: nat, sought: string, rhs: string,
                 w: nat)
    requires (w == 1 || w == 3) && a == Whole(sought, w) && b == Whole(rhs, w)
    requires 1 <= i <= |a| && d.Length0 == |a| + 1 && d.Length1 == |b| + 1 && RowIs(d, a, b, i - 1, |b| + 1)
    modifies d
    ensures RowIs(d, a, b, i, |b| + 1)
  {
    hide Lev, Whole;
    d[i, 0] := i;
    FirstColumn(a, i, b);
    for j := 1 to d.Length1
      invariant RowIs(d, a, b, i - 1, |b| + 1) && RowIs(d, a, b, i, j)
    {
      var left, down, leftDown := d[i - 1, j] + 1, d[i, j - 1] + 1, d[i - 1, j - 1];
      var same := SameLetter(sought, i - 1, rhs, j - 1, w);
      if !same {
        leftDown := leftDown + 1;
      }
      EntryStep(a, b, i - 1, j - 1);
      d[i, j] := Min(left, Min(down, leftDown));
    }
  }

  lemma FirstColumn<T>(a: seq<T>, i: nat, b: seq<T>)
    requires i <= |a|
    ensures Lev(a[..i], b[..0]) == i
  {
  }

  /** On words made of letters of one width the distance is a metric. */
  lemma IsAMetric(x: string, y: string, z: string)
    requires var w := CharLen(x);
      w != -1 && w == CharLen(y) == CharLen(z) && |x| % w == 0 && |y| % w == 0 && |z| % w == 0
    ensures Between(x, y) == Between(y, x)
    ensures Between(x, y) == 0 <==> x == y
    ensures Between(x, z) <= Between(x, y) + Between(y, z)
  {
    var w := CharLen(x);
    var a, b, c := Whole(x, w), Whole(y, w), Whole(z, w);
    Symmetric(a, b);
    ZeroIffEqual(a, b);
    Triangle(a, b, c);
    if a == b { WholeInjective(x, y, w); }
  }

  // ----- the code as it stands -----

  /** What a call of MinimumEditDist comes to: a distance, an exception of the C++ library, or a step that C++ does not
      define. */
  datatype Outcome = Distance(d: int) | LengthError | OutOfRange | Undefined

  /** What a part of the code comes to: a value, with which the call goes on, or the end of the call. */
  datatype Part<T> = Value(value: T) | End(outcome: Outcome)

  type Table = seq<seq<int>>

  /** C++ division. */
  function Quotient(n: nat, w: int): int
    requires w == 1 || w == 3 || w == -1
  {
    var size: int := n;
    if w == -1 then -size else size / w
  }

  /** The constructor of the table; a negative size is a huge size_t. */
  function NewTable(rows: int, columns: int): Part<Table> {
    if rows < 0 || columns < 0 then End(LengthError) else Value(seq(rows, _ => seq(columns, _ => 0)))
  }

  /** What reading beside a row comes to. C++ gives it no meaning; in practice some value lies there. */
  datatype Beside = Meaningless | Holds(v: int)

  /** `t[i][j]` */
  function Read(t: Table, i: int, j: int, beside: Beside): Part<int> {
    if !(0 <= i < |t|) then End(Undefined)
    else if 0 <= j < |t[i]| then Value(t[i][j])
    else match beside case Meaningless => End(Undefined) case Holds(v) => Value(v)
  }

  /** `t[i][j] = v` */
  function Write(t: Table, i: int, j: int, v: int): Part<Table> {
    if 0 <= i < |t| && 0 <= j < |t[i]| then Value(t[i := t[i][j := v]]) else End(Undefined)
  }

  /** string(s, pos, len), whose last two arguments are unsigned: a negative pos lies behind the end, and a negative len
      reaches to it. */
  function Letter(s: string, pos: int, len: int): Part<string> {
    if pos < 0 || pos > |s| then End(OutOfRange)
    else if len < 0 || pos + len > |s| then Value(s[pos..]) else Value(s[pos..pos + len])
  }

  /** The first border loop from i on. */
  function LeftBorder(t: Table, i: nat, m: int): Part<Table>
    decreases m - i
  {
    if i >= m then Value(t)
    else match Write(t, i, 0, i) case End(o) => End(o) case Value(t') => LeftBorder(t', i + 1, m)
  }

  /** The second border loop from i on. */
  function TopBorder(t: Table, i: nat, n: int): Part<Table>
    decreases n - i
  {
    if i >= n then Value(t)
    else match Write(t, 0, i, i) case End(o) => End(o) case Value(t') => TopBorder(t', i + 1, n)
  }

  /** The right-hand side of the inner loop's assignment. */
  function Entry(t: Table, i: int, j: int, sought: string, rhs: string, w: int, beside: Beside): Part<int> {
    match Read(t, i - 1, j, beside)
    case End(o) => End(o)
    case Value(left) =>
      match Read(t, i, j - 1, beside)
      case End(o) => End(o)
      case Value(down) =>
        match Read(t, i - 1, j - 1, beside)
        case End(o) => End(o)
        case Value(leftDown) =>
          match Letter(sought, (i - 1) * w, w)
          case End(o) => End(o)
          case Value(a) =>
            match Letter(rhs, (j - 1) * w, w)
            case End(o) => End(o)
            case Value(b) => Value(Min(left + 1, Min(down + 1, leftDown + Cost(a, b))))
  }

  /** The inner loop from column j on. */
  function Columns(t: Table, i: int, j: nat, n: int, sought: string, rhs: string, w: int, beside: Beside): Part<Table>
    decreases n + 1 - j
  {
    if j >= n + 1 then Value(t)
    else
      match Entry(t, i, j, sought, rhs, w, beside)
      case End(o) => End(o)
      case Value(v) =>
        match Write(t, i, j, v)
        case End(o) => End(o)
        case Value(t') => Columns(t', i, j + 1, n, sought, rhs, w, beside)
  }

  /** The outer loop from row i on. */
  function Rows(t: Table, i: nat, m: int, n: int, sought: string, rhs: string, w: int, beside: Beside): Part<Table>
    decreases m + 1 - i
  {
    if i >= m + 1 then Value(t)
    else
      match Columns(t, i, 0, n, sought, rhs, w, beside)
      case End(o) => End(o)
      case Value(t') => Rows(t', i + 1, m, n, sought, rhs, w, beside)
  }

  /** The table after both border loops. */
  function Borders(m: int, n: int): Part<Table> {
    match NewTable(m + 1, n + 1)
    case End(o) => End(o)
    case Value(t) => match LeftBorder(t, 0, m) case End(o) => End(o) case Value(t') => TopBorder(t', 0, n)
  }

  /** The table after all loops. */
  function Filled(m: int, n: int, sought: string, rhs: string, w: int, beside: Beside): Part<Table> {
    match Borders(m, n)
    case End(o) => End(o)
    case Value(t) => Rows(t, 1, m, n, sought, rhs, w, beside)
  }

  /** What MinimumEditDist comes to, its loops as they stand. */
  function AsWritten(sought: string, rhs: string, beside: Beside): Outcome {
    var w := CharLen(rhs);
    var m, n := Quotient(|sought|, w), Quotient(|rhs|, w);
    if m * n == 0 then Distance(m + n)
    else
      match Filled(m, n, sought, rhs, w, beside)
      case End(o) => o
      case Value(t) => match Read(t, m, n, beside) case End(o) => o case Value(d) => Distance(d)
  }

  /** MinimumEditDist statement by statement. */
  method MinimumEditDistAsWritten(sought: string, rhs: string, beside: Beside) returns (r: Outcome)
    ensures r == AsWritten(sought, rhs, beside)
  {
    var w := CharLen(rhs);
    var m, n := Quotient(|sought|, w), Quotient(|rhs|, w);
    if m * n == 0 {
      return Distance(m + n);
    }
    var table := FillTable(m, n, sought, rhs, w, beside);
    match table
    case End(o) => return o;
    case Value(t) =>
      var last := Read(t, m, n, beside);
      match last
      case End(o) => return o;
      case Value(d) => return Distance(d);
  }

  /** Its loops. */
  method FillTable(m: int, n: int, sought: string, rhs: string, w: int, beside: Beside)
    returns (r: Part<Table>)
    ensures r == Filled(m, n, sought, rhs, w, beside)
  {
    hide NewTable, Write, Columns;
    r := NewTable(m + 1, n + 1);
    if r.End? {
      return;
    }
    var i := 0;
    while i < m
      invariant i >= 0 && r.Value? && LeftBorder(r.value, i, m) == LeftBorder(NewTable(m + 1, n + 1).value, 0, m)
      decreases m - i
    {
      r := Write(r.value, i, 0, i);
      if r.End? {
        return;
      }
      i := i + 1;
    }
    ghost var bordered := r.value;
    i := 0;
    while i < n
      invariant i >= 0 && r.Value? && TopBorder(r.value, i, n) == TopBorder(bordered, 0, n)
      decreases n - i
    {
      r := Write(r.value, 0, i, i);
      if r.End? {
        return;
      }
      i := i + 1;
    }
    ghost var start := r.value;
    i := 1;
    while i < m + 1
      invariant i >= 0 && r.Value?
      invariant Rows(r.value, i, m, n, sought, rhs, w, beside) == Rows(start, 1, m, n, sought, rhs, w, beside)
      decreases m + 1 - i
    {
      r := FillRow(r.value, i, n, sought, rhs, w, beside);
      if r.End? {
        return;
      }
      i := i + 1;
    }
  }

  /** Its inner loop. */
  method FillRow(t: Table, i: nat, n: int, sought: string, rhs: string, w: int, beside: Beside)
    returns (r: Part<Table>)
    ensures r == Columns(t, i, 0, n, sought, rhs, w, beside)
  {
    hide Entry, Write;
    r := Value(t);
    var j := 0;
    while j < n + 1
      invariant j >= 0 && r.Value?
      invariant Columns(r.value, i, j, n, sought, rhs, w, beside) == Columns(t, i, 0, n, sought, rhs, w, beside)
      decreases n + 1 - j
    {
      var entry := Entry(r.value, i, j, sought, rhs, w, beside);
      if entry.End? {
        return End(entry.outcome);
      }
      r := Write(r.value, i, j, entry.value);
      if r.End? {
        return;
      }
      j := j + 1;
    }
  }

  /** All rows of t have the same length. */
  predicate Shape(t: Table, rows: nat, columns: nat) { |t| == rows && forall i :: 0 <= i < rows ==> |t[i]| == columns }

  lemma {:induction false} LeftBorderFits(t: Table, i: nat, m: nat, columns: nat)
    requires Shape(t, m + 1, columns) && columns > 0 && i <= m
    ensures LeftBorder(t, i, m).Value? && Shape(LeftBorder(t, i, m).value, m + 1, columns)
    decreases m - i
  {
    if i < m { LeftBorderFits(Write(t, i, 0, i).value, i + 1, m, columns); }
  }

  lemma {:induction false} TopBorderFits(t: Table, i: nat, n: nat, rows: nat)
    requires Shape(t, rows, n + 1) && rows > 0 && i <= n
    ensures TopBorder(t, i, n).Value? && Shape(TopBorder(t, i, n).value, rows, n + 1)
    decreases n - i
  {
    if i < n { TopBorderFits(Write(t, 0, i, i).value, i + 1, n, rows); }
  }

  lemma BordersFit(m: nat, n: nat)
    ensures Borders(m, n).Value? && Shape(Borders(m, n).value, m + 1, n + 1)
  {
    var t := NewTable(m + 1, n + 1).value;
    LeftBorderFits(t, 0, m, n + 1);
    TopBorderFits(LeftBorder(t, 0, m).value, 0, n, m + 1);
  }

  /** The first turn of the inner loop is the last: it reads in front of a row, and if that is let pass, it asks for the
      letter of rhs in front of the first. */
  lemma FirstTurnEnds(t: Table, m: nat, n: nat, sought: string, rhs: string, w: nat, beside: Beside)
    requires Shape(t, m + 1, n + 1) && m > 0 && n > 0 && w > 0
    ensures Entry(t, 1, 0, sought, rhs, w, beside) == End(if beside.Meaningless? then Undefined else OutOfRange)
  {
    assert Read(t, 0, 0, beside).Value?;
  }

  lemma LoopsEnd(m: nat, n: nat, sought: string, rhs: string, w: nat, beside: Beside)
    requires m > 0 && n > 0 && w > 0
    ensures Filled(m, n, sought, rhs, w, beside) == End(if beside.Meaningless? then Undefined else OutOfRange)
  {
    BordersFit(m, n);
    hide Borders, Entry;
    FirstTurnEnds(Borders(m, n).value, m, n, sought, rhs, w, beside);
  }

  /** With the letter width -1 the table is empty or has a negative size. */
  lemma NoTable(m: int, n: int, sought: string, rhs: string, beside: Beside)
    requires m < 0 && n < 0
    ensures var r := Filled(m, n, sought, rhs, -1, beside); if r.End? then r.outcome == LengthError else r.value == []
  {
  }

  /** The loops as they stand end in a distance if and only if one of the two words has no whole letter, that is, if
      they are never entered. */
  lemma EndsInADistance(sought: string, rhs: string, beside: Beside)
    ensures AsWritten(sought, rhs, beside).Distance?
      <==> Quotient(|sought|, CharLen(rhs)) == 0 || Quotient(|rhs|, CharLen(rhs)) == 0
  {
    var w := CharLen(rhs);
    var m, n := Quotient(|sought|, w), Quotient(|rhs|, w);
    hide Filled;
    NotZero(m, n);
    if m != 0 && n != 0 {
      if w == -1 {
        NoTable(m, n, sought, rhs, beside);
      } else {
        LoopsEnd(m, n, sought, rhs, w, beside);
      }
    }
  }

  lemma NotZero(m: int, n: int)
    ensures m * n == 0 <==> m == 0 || n == 0
  {
  }

  /** So the code yields the distance exactly when it knows the width of the letters and one of the words has no whole
      letter. With an unknown width and an empty key it yields a negative number. */
  lemma RightExactlyWhenOneIsEmpty(sought: string, rhs: string, beside: Beside)
    ensures var w := CharLen(rhs);
      (w != -1 && AsWritten(sought, rhs, beside) == Distance(Between(sought, rhs)))
        <==> w != -1 && (|sought| < w || |rhs| < w)
    ensures CharLen(rhs) == -1 && sought == "" ==> AsWritten(sought, rhs, beside) == Distance(-|rhs|) && |rhs| > 0
  {
    var w := CharLen(rhs);
    hide Filled;
    EndsInADistance(sought, rhs, beside);
    if w != -1 {
      NotZero(|sought| / w, |rhs| / w);
      assert Quotient(|sought|, w) == |Whole(sought, w)| && Quotient(|rhs|, w) == |Whole(rhs, w)|;
    }
  }

  /** Two equal one-letter words already fail: an instance of the loops above. */
  method FailsOnEqualWords(beside: Beside) returns (r: Outcome)
    ensures r == if beside.Meaningless? then Undefined else OutOfRange
    ensures Between("a", "a") == 0
  {
    r := MinimumEditDistAsWritten("a", "a", beside);
    LoopsEnd(1, 1, "a", "a", 1, beside);
    hide Filled;
    ZeroToItself(Whole("a", 1));
  }
}
