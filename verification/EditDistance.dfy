/**
 Word-level edit distance: the dynamic program that fills the matrix, the greedy backtrack that
 counts substitutions, insertions and deletions, and the error rate computed from them.

 What an edit script is and does is defined first, without any reference to the matrix.
 */
module EditDistance {
  import opened Prelude

  // ------------------------------------------------------------------ edit scripts

  datatype Edit<W> = Keep | Substitute(word: W) | Insert(word: W) | Delete

  datatype Script<W> = Done | Then(edit: Edit<W>, rest: Script<W>)

  /** The words a script writes while reading `r` from position `i`; None if it does not fit `r`. */
  function Apply<W>(script: Script<W>, r: seq<W>, i: nat): Option<seq<W>> {
    match script
    case Done => if i == |r| then Some([]) else None
    case Then(Keep, rest) =>
      if i < |r| then Before(r[i], Apply(rest, r, i + 1)) else None
    case Then(Substitute(w), rest) =>
      if i < |r| then Before(w, Apply(rest, r, i + 1)) else None
    case Then(Insert(w), rest) => Before(w, Apply(rest, r, i))
    case Then(Delete, rest) =>
      if i < |r| then Apply(rest, r, i + 1) else None
  }

  function Before<W>(w: W, rest: Option<seq<W>>): Option<seq<W>> {
    match rest
    case Some(words) => Some([w] + words)
    case None => None
  }

  function Substitutions<W>(script: Script<W>): nat {
    match script
    case Done => 0
    case Then(e, rest) => (if e.Substitute? then 1 else 0) + Substitutions(rest)
  }

  function Insertions<W>(script: Script<W>): nat {
    match script
    case Done => 0
    case Then(e, rest) => (if e.Insert? then 1 else 0) + Insertions(rest)
  }

  function Deletions<W>(script: Script<W>): nat {
    match script
    case Done => 0
    case Then(e, rest) => (if e.Delete? then 1 else 0) + Deletions(rest)
  }

  /** Every edit but keeping a word costs one. */
  function Cost<W>(script: Script<W>): nat {
    match script
    case Done => 0
    case Then(e, rest) => (if e.Keep? then 0 else 1) + Cost(rest)
  }

  lemma {:induction false} CostIsTheSumOfTheCounts<W>(script: Script<W>)
    ensures Cost(script) == Substitutions(script) + Insertions(script) + Deletions(script)
  {
    if script.Then? {
      CostIsTheSumOfTheCounts(script.rest);
    }
  }

  /** Applying the script to `reference` yields `hypothesis`. */
  ghost predicate Rewrites<W>(script: Script<W>, reference: seq<W>, hypothesis: seq<W>) {
    Apply(script, reference, 0) == Some(hypothesis)
  }

  /** The script rewrites `reference` into `hypothesis`, and no other script that does so costs less. */
  ghost predicate IsCheapest<W(!new)>(script: Script<W>, reference: seq<W>, hypothesis: seq<W>) {
    && Rewrites(script, reference, hypothesis)
    && forall other: Script<W> :: Rewrites(other, reference, hypothesis) ==> Cost(script) <= Cost(other)
  }

  /** The script as a walk over positions: from (i, j) it reads the rest of `r` and writes the rest of `h`. */
  ghost predicate Walks<W>(script: Script<W>, r: seq<W>, i: nat, h: seq<W>, j: nat) {
    match script
    case Done => i == |r| && j == |h|
    case Then(Keep, rest) => i < |r| && j < |h| && r[i] == h[j] && Walks(rest, r, i + 1, h, j + 1)
    case Then(Substitute(w), rest) => i < |r| && j < |h| && w == h[j] && Walks(rest, r, i + 1, h, j + 1)
    case Then(Insert(w), rest) => j < |h| && w == h[j] && Walks(rest, r, i, h, j + 1)
    case Then(Delete, rest) => i < |r| && Walks(rest, r, i + 1, h, j)
  }

  lemma {:induction false} WalksIffApplies<W>(script: Script<W>, r: seq<W>, i: nat, h: seq<W>, j: nat)
    requires j <= |h|
    ensures Walks(script, r, i, h, j) <==> Apply(script, r, i) == Some(h[j..])
  {
    match script
    case Done =>
      assert h[j..] == [] <==> j == |h|;
    case Then(Delete, rest) =>
      if i < |r| {
        WalksIffApplies(rest, r, i + 1, h, j);
      }
    case Then(Keep, rest) =>
      if i < |r| {
        SplitHead(r[i], Apply(rest, r, i + 1), h, j);
        if j < |h| {
          WalksIffApplies(rest, r, i + 1, h, j + 1);
        }
      }
    case Then(Substitute(w), rest) =>
      SplitHead(w, Apply(rest, r, i + 1), h, j);
      if j < |h| {
        WalksIffApplies(rest, r, i + 1, h, j + 1);
      }
    case Then(Insert(w), rest) =>
      SplitHead(w, Apply(rest, r, i), h, j);
      if j < |h| {
        WalksIffApplies(rest, r, i, h, j + 1);
      }
  }

  lemma SplitHead<W>(w: W, rest: Option<seq<W>>, h: seq<W>, j: nat)
    requires j <= |h|
    ensures Before(w, rest) == Some(h[j..]) <==> j < |h| && w == h[j] && rest == Some(h[j + 1..])
  {
    if j < |h| {
      assert h[j..] == [h[j]] + h[j + 1..];
    }
    if Before(w, rest) == Some(h[j..]) {
      assert |h[j..]| == 1 + |rest.value|;
      assert ([w] + rest.value)[1..] == rest.value;
      assert h[j..][1..] == h[j + 1..];
      assert ([w] + rest.value)[0] == w && h[j..][0] == h[j];
    }
  }

  // ------------------------------------------------------------------ the recurrence

  function Min3(a: int, b: int, c: int): int {
    var ab := if a <= b then a else b;
    if ab <= c then ab else c
  }

  /** The recurrence of the matrix: the distance between the first i reference words and the first j
      hypothesis words. */
  function Distance<W(==)>(r: seq<W>, i: nat, h: seq<W>, j: nat): nat
    requires i <= |r| && j <= |h|
  {
    if i == 0 then j
    else if j == 0 then i
    else
      Min3(Distance(r, i - 1, h, j) + 1,
           Distance(r, i, h, j - 1) + 1,
           Distance(r, i - 1, h, j - 1) + (if r[i - 1] == h[j - 1] then 0 else 1))
  }

  /** Cells that touch differ by at most one. */
  lemma {:induction false} NeighboursDifferByAtMostOne<W>(r: seq<W>, i: nat, h: seq<W>, j: nat)
    requires i <= |r| && j <= |h|
    ensures i > 0 ==> Distance(r, i - 1, h, j) - 1 <= Distance(r, i, h, j) <= Distance(r, i - 1, h, j) + 1
    ensures j > 0 ==> Distance(r, i, h, j - 1) - 1 <= Distance(r, i, h, j) <= Distance(r, i, h, j - 1) + 1
    decreases i + j
  {
    if i > 0 && j > 0 {
      NeighboursDifferByAtMostOne(r, i - 1, h, j);
      NeighboursDifferByAtMostOne(r, i, h, j - 1);
    } else if i > 0 {
      NeighboursDifferByAtMostOne(r, i - 1, h, j);
    } else if j > 0 {
      NeighboursDifferByAtMostOne(r, i, h, j - 1);
    }
  }

  /** Equal words force a cell to equal its diagonal neighbour. */
  lemma EqualWordsTakeTheDiagonal<W>(r: seq<W>, i: nat, h: seq<W>, j: nat)
    requires 0 < i <= |r| && 0 < j <= |h| && r[i - 1] == h[j - 1]
    ensures Distance(r, i, h, j) == Distance(r, i - 1, h, j - 1)
  {
    NeighboursDifferByAtMostOne(r, i - 1, h, j);
    NeighboursDifferByAtMostOne(r, i, h, j - 1);
  }

  /** No script is cheaper than the recurrence: from (i, j), every walk costs at least the remaining distance. */
  lemma {:induction false} NoWalkIsCheaper<W>(script: Script<W>, r: seq<W>, i: nat, h: seq<W>, j: nat)
    requires i <= |r| && j <= |h| && Walks(script, r, i, h, j)
    ensures Distance(r, |r|, h, |h|) <= Distance(r, i, h, j) + Cost(script)
    decreases script
  {
    match script
    case Done =>
    case Then(Insert(_), rest) =>
      NoWalkIsCheaper(rest, r, i, h, j + 1);
      NeighboursDifferByAtMostOne(r, i, h, j + 1);
    case Then(Delete, rest) =>
      NoWalkIsCheaper(rest, r, i + 1, h, j);
      NeighboursDifferByAtMostOne(r, i + 1, h, j);
    case Then(_, rest) =>
      NoWalkIsCheaper(rest, r, i + 1, h, j + 1);
  }

  /** Some script achieves the recurrence: any walk from (i, j) extends to one from the origin at exactly
      the cell's cost. */
  lemma {:induction false} SomeWalkAchieves<W>(rest: Script<W>, r: seq<W>, i: nat, h: seq<W>, j: nat)
    returns (script: Script<W>)
    requires i <= |r| && j <= |h| && Walks(rest, r, i, h, j)
    ensures Walks(script, r, 0, h, 0) && Cost(script) == Distance(r, i, h, j) + Cost(rest)
    decreases i + j
  {
    if i == 0 && j == 0 {
      script := rest;
    } else if j > 0 && (i == 0 || Distance(r, i, h, j) == Distance(r, i, h, j - 1) + 1) {
      script := SomeWalkAchieves(Then(Insert(h[j - 1]), rest), r, i, h, j - 1);
    } else if i > 0 && (j == 0 || Distance(r, i, h, j) == Distance(r, i - 1, h, j) + 1) {
      script := SomeWalkAchieves(Then(Delete, rest), r, i - 1, h, j);
    } else {
      var e := if r[i - 1] == h[j - 1] then Keep else Substitute(h[j - 1]);
      assert Distance(r, i, h, j) == Distance(r, i - 1, h, j - 1) + (if e.Keep? then 0 else 1);
      script := SomeWalkAchieves(Then(e, rest), r, i - 1, h, j - 1);
    }
  }

  lemma NoScriptIsCheaper<W(!new)>(script: Script<W>, r: seq<W>, h: seq<W>)
    requires Rewrites(script, r, h)
    ensures Distance(r, |r|, h, |h|) <= Cost(script)
  {
    assert h[0..] == h;
    WalksIffApplies(script, r, 0, h, 0);
    NoWalkIsCheaper(script, r, 0, h, 0);
  }

  /** A script as cheap as the recurrence's value is a cheapest one. */
  lemma CheapestScript<W(!new)>(script: Script<W>, r: seq<W>, h: seq<W>)
    requires Rewrites(script, r, h) && Cost(script) == Distance(r, |r|, h, |h|)
    ensures IsCheapest(script, r, h)
  {
    forall other: Script<W> | Rewrites(other, r, h)
      ensures Cost(script) <= Cost(other)
    {
      NoScriptIsCheaper(other, r, h);
    }
  }

  /** The recurrence computes the minimum cost over all edit scripts: one achieves it, none is cheaper. */
  lemma DistanceIsOptimal<W(!new)>(r: seq<W>, h: seq<W>)
    ensures exists script: Script<W> :: IsCheapest(script, r, h) && Cost(script) == Distance(r, |r|, h, |h|)
  {
    assert h[0..] == h;
    var best := SomeWalkAchieves(Done, r, |r|, h, |h|);
    WalksIffApplies(best, r, 0, h, 0);
    CheapestScript(best, r, h);
  }

  /** The distance is zero exactly for equal word sequences. */
  lemma {:induction false} ZeroDistanceIsEquality<W>(r: seq<W>, i: nat, h: seq<W>, j: nat)
    requires i <= |r| && j <= |h|
    ensures Distance(r, i, h, j) == 0 <==> r[..i] == h[..j]
    decreases i + j
  {
    if i > 0 && j > 0 {
      ZeroDistanceIsEquality(r, i - 1, h, j - 1);
      assert r[..i] == r[..i - 1] + [r[i - 1]] && h[..j] == h[..j - 1] + [h[j - 1]];
      if r[i - 1] == h[j - 1] {
        EqualWordsTakeTheDiagonal(r, i, h, j);
      }
      assert r[..i] == h[..j] ==> r[..i - 1] == h[..j - 1] by {
        assert r[..i][..i - 1] == r[..i - 1] && h[..j][..j - 1] == h[..j - 1];
      }
    }
  }

  lemma DistanceSeparates<W>(r: seq<W>, h: seq<W>)
    ensures Distance(r, |r|, h, |h|) == 0 <==> r == h
  {
    ZeroDistanceIsEquality(r, |r|, h, |h|);
    assert r[..|r|] == r && h[..|h|] == h;
  }

  // ------------------------------------------------------------------ the matrix

  /** The matrix has the right borders and every inner cell follows from its three neighbours. */
  ghost predicate IsEditMatrix<W>(m: array2<int>, r: seq<W>, h: seq<W>)
    reads m
  {
    && m.Length0 == |r| + 1
    && m.Length1 == |h| + 1
    && (forall i :: 0 <= i <= |r| ==> m[i, 0] == i)
    && (forall j :: 0 <= j <= |h| ==> m[0, j] == j)
    && forall i, j :: 0 < i <= |r| && 0 < j <= |h| ==> CellFollows(m, r, i, h, j)
  }

  ghost predicate CellFollows<W>(m: array2<int>, r: seq<W>, i: int, h: seq<W>, j: int)
    requires m.Length0 == |r| + 1 && m.Length1 == |h| + 1
    requires 0 < i <= |r| && 0 < j <= |h|
    reads m
  {
    m[i, j] == Min3(m[i - 1, j] + 1, m[i, j - 1] + 1, m[i - 1, j - 1] + (if r[i - 1] == h[j - 1] then 0 else 1))
  }

  /** `createEditMatrix`: the two borders first, then the interior row by row. */
  method CreateEditMatrix<W(==)>(reference: seq<W>, hypothesis: seq<W>) returns (matrix: array2<int>)
    ensures fresh(matrix)
    ensures IsEditMatrix(matrix, reference, hypothesis)
  {
    var n, k := |reference|, |hypothesis|;
    matrix := new int[n + 1, k + 1]((_, _) => 0);

    for row := 0 to n + 1
      invariant forall i :: 0 <= i < row ==> matrix[i, 0] == i
    {
      matrix[row, 0] := row;
    }

    for column := 0 to k + 1
      invariant forall i :: 0 <= i <= n ==> matrix[i, 0] == i
      invariant forall j :: 0 <= j < column ==> matrix[0, j] == j
    {
      matrix[0, column] := column;
    }

    for row := 1 to n + 1
      invariant forall i :: 0 <= i <= n ==> matrix[i, 0] == i
      invariant forall j :: 0 <= j <= k ==> matrix[0, j] == j
      invariant forall i, j :: 0 < i < row && 0 < j <= k ==> CellFollows(matrix, reference, i, hypothesis, j)
    {
      for column := 1 to k + 1
        invariant forall i :: 0 <= i <= n ==> matrix[i, 0] == i
        invariant forall j :: 0 <= j <= k ==> matrix[0, j] == j
        invariant forall i, j :: 0 < i <= row && 0 < j <= k && (i < row || j < column) ==>
          CellFollows(matrix, reference, i, hypothesis, j)
      {
        var substitutionCost := if reference[row - 1] == hypothesis[column - 1] then 0 else 1;
        label before:
        matrix[row, column] :=
          Min3(matrix[row - 1, column] + 1,
               matrix[row, column - 1] + 1,
               matrix[row - 1, column - 1] + substitutionCost);
        forall i, j | 0 < i <= row && 0 < j <= k && (i < row || j <= column)
          ensures CellFollows(matrix, reference, i, hypothesis, j)
        {
          assert (i == row && j == column) || old@before(CellFollows(matrix, reference, i, hypothesis, j));
        }
      }
    }
  }

  /** Every cell of the matrix is the distance between the two prefixes. */
  lemma {:induction false} CellIsDistance<W>(m: array2<int>, r: seq<W>, i: nat, h: seq<W>, j: nat)
    requires IsEditMatrix(m, r, h)
    requires i <= |r| && j <= |h|
    ensures m[i, j] == Distance(r, i, h, j)
    decreases i + j
  {
    if i > 0 && j > 0 {
      CellIsDistance(m, r, i - 1, h, j);
      CellIsDistance(m, r, i, h, j - 1);
      CellIsDistance(m, r, i - 1, h, j - 1);
      assert CellFollows(m, r, i, h, j);
    }
  }

  lemma CellTakesTheDiagonal<W>(m: array2<int>, r: seq<W>, i: nat, h: seq<W>, j: nat)
    requires IsEditMatrix(m, r, h)
    requires 0 < i <= |r| && 0 < j <= |h| && r[i - 1] == h[j - 1]
    ensures m[i, j] == m[i - 1, j - 1]
  {
    CellIsDistance(m, r, i, h, j);
    CellIsDistance(m, r, i - 1, h, j - 1);
    EqualWordsTakeTheDiagonal(r, i, h, j);
  }

  // ------------------------------------------------------------------ backtracking

  datatype EditCounts = EditCounts(substitutions: nat, insertions: nat, deletions: nat) {
    function Total(): nat { substitutions + insertions + deletions }
  }

  ghost function CountsOf<W>(script: Script<W>): EditCounts {
    EditCounts(Substitutions(script), Insertions(script), Deletions(script))
  }

  /** Every substitution on the walk replaces a word by a different one. */
  ghost predicate Genuine<W>(script: Script<W>, r: seq<W>, i: nat) {
    match script
    case Done => true
    case Then(Insert(_), rest) => Genuine(rest, r, i)
    case Then(Substitute(w), rest) => i < |r| && r[i] != w && Genuine(rest, r, i + 1)
    case Then(_, rest) => Genuine(rest, r, i + 1)
  }

  // ------------------------------------------------------------------ which of the cheapest scripts is counted

  function Edits<W>(script: Script<W>): seq<Edit<W>> {
    match script
    case Done => []
    case Then(e, rest) => [e] + Edits(rest)
  }

  function EditsCost<W>(edits: seq<Edit<W>>): nat {
    if edits == [] then 0
    else EditsCost(edits[..|edits| - 1]) + (if edits[|edits| - 1].Keep? then 0 else 1)
  }

  /** Keeping is preferred to substituting, that to inserting, and that to deleting. */
  function Preference<W>(e: Edit<W>): nat {
    match e
    case Keep => 0
    case Substitute(_) => 1
    case Insert(_) => 2
    case Delete => 3
  }

  /** Compared from their ends, a and b are equal, or at the last difference a has the preferred edit. */
  ghost predicate ComesFirst<W>(a: seq<Edit<W>>, b: seq<Edit<W>>) {
    if a == [] || b == [] then a == b
    else
      var x, y := a[|a| - 1], b[|b| - 1];
      Preference(x) < Preference(y) || (x == y && ComesFirst(a[..|a| - 1], b[..|b| - 1]))
  }

  /** Among all scripts that turn the reference into the hypothesis at this cost, the script comes first. */
  ghost predicate ComesFirstOfAll<W(!new)>(script: Script<W>, r: seq<W>, h: seq<W>) {
    forall other: Script<W> :: Rewrites(other, r, h) && Cost(other) == Cost(script) ==>
      ComesFirst(Edits(script), Edits(other))
  }

  /** The edits lead from the origin to the position (i, j). */
  ghost predicate LeadTo<W>(edits: seq<Edit<W>>, r: seq<W>, i: nat, h: seq<W>, j: nat)
    decreases |edits|
  {
    if edits == [] then i == 0 && j == 0
    else
      var init := edits[..|edits| - 1];
      match edits[|edits| - 1]
      case Keep => 0 < i <= |r| && 0 < j <= |h| && r[i - 1] == h[j - 1] && LeadTo(init, r, i - 1, h, j - 1)
      case Substitute(w) => 0 < i <= |r| && 0 < j <= |h| && w == h[j - 1] && LeadTo(init, r, i - 1, h, j - 1)
      case Insert(w) => 0 < j <= |h| && w == h[j - 1] && LeadTo(init, r, i, h, j - 1)
      case Delete => 0 < i <= |r| && LeadTo(init, r, i - 1, h, j)
  }

  lemma {:induction false} LeadOn<W>(edits: seq<Edit<W>>, script: Script<W>, r: seq<W>, i: nat, h: seq<W>, j: nat)
    requires LeadTo(edits, r, i, h, j) && Walks(script, r, i, h, j)
    ensures LeadTo(edits + Edits(script), r, |r|, h, |h|)
    ensures EditsCost(edits + Edits(script)) == EditsCost(edits) + Cost(script)
    decreases script
  {
    match script
    case Done => assert edits + [] == edits;
    case Then(e, rest) =>
      var more := edits + [e];
      assert more[..|edits|] == edits && edits + ([e] + Edits(rest)) == more + Edits(rest);
      match e {
        case Insert(_) => LeadOn(more, rest, r, i, h, j + 1);
        case Delete => LeadOn(more, rest, r, i + 1, h, j);
        case _ => LeadOn(more, rest, r, i + 1, h, j + 1);
      }
  }

  /** The edits that the backtrack finds on its way from (i, j) to the origin. */
  function Greedy<W(==)>(r: seq<W>, i: nat, h: seq<W>, j: nat): seq<Edit<W>>
    requires i <= |r| && j <= |h|
    decreases i + j
  {
    if i == 0 && j == 0 then []
    else if i > 0 && j > 0 && r[i - 1] == h[j - 1] then Greedy(r, i - 1, h, j - 1) + [Keep]
    else if i > 0 && j > 0 && Distance(r, i, h, j) == Distance(r, i - 1, h, j - 1) + 1 then
      Greedy(r, i - 1, h, j - 1) + [Substitute(h[j - 1])]
    else if j > 0 && Distance(r, i, h, j) == Distance(r, i, h, j - 1) + 1 then
      Greedy(r, i, h, j - 1) + [Insert(h[j - 1])]
    else Greedy(r, i - 1, h, j) + [Delete]
  }

  /** How far a cell is from its neighbours at most. */
  lemma NeighboursBound<W>(r: seq<W>, i: nat, h: seq<W>, j: nat)
    requires i <= |r| && j <= |h|
    ensures i > 0 ==> Distance(r, i, h, j) <= Distance(r, i - 1, h, j) + 1
    ensures j > 0 ==> Distance(r, i, h, j) <= Distance(r, i, h, j - 1) + 1
    ensures i > 0 && j > 0 ==> Distance(r, i, h, j) <= Distance(r, i - 1, h, j - 1) + (if r[i - 1] == h[j - 1] then 0 else 1)
  {
    NeighboursDifferByAtMostOne(r, i, h, j);
  }

  lemma {:induction false} NoEditsAreCheaper<W>(edits: seq<Edit<W>>, r: seq<W>, i: nat, h: seq<W>, j: nat)
    requires i <= |r| && j <= |h| && LeadTo(edits, r, i, h, j)
    ensures Distance(r, i, h, j) <= EditsCost(edits)
    decreases |edits|
  {
    if edits != [] {
      var init := edits[..|edits| - 1];
      NeighboursBound(r, i, h, j);
      match edits[|edits| - 1] {
        case Insert(_) => NoEditsAreCheaper(init, r, i, h, j - 1);
        case Delete => NoEditsAreCheaper(init, r, i - 1, h, j);
        case _ => NoEditsAreCheaper(init, r, i - 1, h, j - 1);
      }
    }
  }

  lemma GreedyUnfolds<W>(r: seq<W>, i: nat, h: seq<W>, j: nat, e: Edit<W>)
    requires i <= |r| && j <= |h| && i + j > 0
    requires match e
             case Keep => i > 0 && j > 0 && r[i - 1] == h[j - 1]
             case Substitute(w) => i > 0 && j > 0 && w == h[j - 1] && Distance(r, i, h, j) == Distance(r, i - 1, h, j - 1) + 1
             case Insert(w) => j > 0 && w == h[j - 1] && Distance(r, i, h, j) == Distance(r, i, h, j - 1) + 1
             case Delete => i > 0 && Distance(r, i, h, j) == Distance(r, i - 1, h, j) + 1
    ensures var g := Greedy(r, i, h, j);
            && g != []
            && (Preference(g[|g| - 1]) < Preference(e)
                || (g[|g| - 1] == e
                    && g[..|g| - 1] == match e
                                       case Insert(_) => Greedy(r, i, h, j - 1)
                                       case Delete => Greedy(r, i - 1, h, j)
                                       case _ => Greedy(r, i - 1, h, j - 1)))
  {
    if e.Substitute? && r[i - 1] == h[j - 1] {
      EqualWordsTakeTheDiagonal(r, i, h, j);
    }
  }

  /** Of all cheapest ways to (i, j) the greedy one comes first. */
  lemma {:induction false} GreedyComesFirst<W>(edits: seq<Edit<W>>, r: seq<W>, i: nat, h: seq<W>, j: nat)
    requires i <= |r| && j <= |h| && LeadTo(edits, r, i, h, j) && EditsCost(edits) == Distance(r, i, h, j)
    ensures ComesFirst(Greedy(r, i, h, j), edits)
    decreases |edits|
  {
    if edits != [] {
      var init, e := edits[..|edits| - 1], edits[|edits| - 1];
      var i', j' := if e.Insert? then i else i - 1, if e.Delete? then j else j - 1;
      NeighboursBound(r, i, h, j);
      NoEditsAreCheaper(init, r, i', h, j');
      GreedyUnfolds(r, i, h, j, e);
      GreedyComesFirst(init, r, i', h, j');
    }
  }

  lemma GreedyScriptComesFirstOfAll<W(!new)>(script: Script<W>, r: seq<W>, h: seq<W>)
    requires Edits(script) == Greedy(r, |r|, h, |h|) && Cost(script) == Distance(r, |r|, h, |h|)
    ensures ComesFirstOfAll(script, r, h)
  {
    assert h[0..] == h;
    forall other: Script<W> | Rewrites(other, r, h) && Cost(other) == Cost(script)
      ensures ComesFirst(Edits(script), Edits(other))
    {
      WalksIffApplies(other, r, 0, h, 0);
      LeadOn([], other, r, 0, h, 0);
      assert [] + Edits(other) == Edits(other);
      GreedyComesFirst(Edits(other), r, |r|, h, |h|);
    }
  }

  /** The edit with which the greedy edits to (i, j) end. */
  ghost predicate IsGreedy<W>(r: seq<W>, i: nat, h: seq<W>, j: nat, e: Edit<W>)
    requires i <= |r| && j <= |h|
  {
    match e
    case Keep => i > 0 && j > 0 && r[i - 1] == h[j - 1]
    case Substitute(w) =>
      && i > 0 && j > 0 && w == h[j - 1] && r[i - 1] != h[j - 1]
      && Distance(r, i, h, j) == Distance(r, i - 1, h, j - 1) + 1
    case Insert(w) =>
      && j > 0 && w == h[j - 1] && Distance(r, i, h, j) == Distance(r, i, h, j - 1) + 1
      && (i > 0 ==> r[i - 1] != h[j - 1] && Distance(r, i, h, j) != Distance(r, i - 1, h, j - 1) + 1)
    case Delete =>
      && i > 0
      && (j > 0 ==>
            && r[i - 1] != h[j - 1] && Distance(r, i, h, j) != Distance(r, i - 1, h, j - 1) + 1
            && Distance(r, i, h, j) != Distance(r, i, h, j - 1) + 1)
  }

  function GreedyBefore<W(==)>(r: seq<W>, i: nat, h: seq<W>, j: nat, e: Edit<W>): seq<Edit<W>>
    requires i <= |r| && j <= |h| && (e.Insert? || i > 0) && (e.Delete? || j > 0)
  {
    Greedy(r, if e.Insert? then i else i - 1, h, if e.Delete? then j else j - 1)
  }

  lemma GreedyTakes<W>(r: seq<W>, i: nat, h: seq<W>, j: nat, e: Edit<W>, script: Script<W>)
    requires i <= |r| && j <= |h| && IsGreedy(r, i, h, j, e)
    ensures Greedy(r, i, h, j) + Edits(script) == GreedyBefore(r, i, h, j, e) + Edits(Then(e, script))
  {
    GreedyEndsWith(r, i, h, j, e);
    MoveEdit(GreedyBefore(r, i, h, j, e), e, script);
  }

  lemma GreedyEndsWith<W>(r: seq<W>, i: nat, h: seq<W>, j: nat, e: Edit<W>)
    requires i <= |r| && j <= |h| && IsGreedy(r, i, h, j, e)
    ensures Greedy(r, i, h, j) == GreedyBefore(r, i, h, j, e) + [e]
  {
  }

  lemma MoveEdit<W>(before: seq<Edit<W>>, e: Edit<W>, script: Script<W>)
    ensures (before + [e]) + Edits(script) == before + Edits(Then(e, script))
  {
  }

  // ------------------------------------------------------------------ the backtrack

  /** The script walks from (row, column) to the end, completes what the cell costs to what the corner costs, and
      is the greedy one. */
  ghost predicate OnTrack<W>(m: array2<int>, r: seq<W>, row: nat, h: seq<W>, column: nat, script: Script<W>)
    requires IsEditMatrix(m, r, h)
    reads m
  {
    && row <= |r| && column <= |h|
    && Walks(script, r, row, h, column) && Genuine(script, r, row)
    && m[row, column] + Cost(script) == m[|r|, |h|]
    && Greedy(r, row, h, column) + Edits(script) == Greedy(r, |r|, h, |h|)
  }

  /** Which branch of the loop is taken at a cell. */
  ghost predicate Chooses<W>(m: array2<int>, r: seq<W>, row: nat, h: seq<W>, column: nat, e: Edit<W>)
    requires IsEditMatrix(m, r, h) && row <= |r| && column <= |h|
    reads m
  {
    match e
    case Keep => row > 0 && column > 0 && r[row - 1] == h[column - 1]
    case Substitute(w) =>
      && row > 0 && column > 0 && w == h[column - 1] && r[row - 1] != h[column - 1]
      && m[row, column] == m[row - 1, column - 1] + 1
    case Insert(w) =>
      && column > 0 && w == h[column - 1] && m[row, column] == m[row, column - 1] + 1
      && (row > 0 ==> r[row - 1] != h[column - 1] && m[row, column] != m[row - 1, column - 1] + 1)
    case Delete =>
      && row > 0 && m[row, column] == m[row - 1, column] + 1
      && (column > 0 ==>
            && r[row - 1] != h[column - 1] && m[row, column] != m[row - 1, column - 1] + 1
            && m[row, column] != m[row, column - 1] + 1)
  }

  /** Equal words meet the first branch's second condition; and where no other branch applies, the last one does. */
  lemma SomeBranchApplies<W>(m: array2<int>, r: seq<W>, row: nat, h: seq<W>, column: nat)
    requires IsEditMatrix(m, r, h) && row <= |r| && column <= |h| && row + column > 0
    ensures row > 0 && column > 0 && r[row - 1] == h[column - 1] ==> m[row, column] == m[row - 1, column - 1]
    ensures || Chooses(m, r, row, h, column, Keep)
            || (column > 0 && Chooses(m, r, row, h, column, Substitute(h[column - 1])))
            || (column > 0 && Chooses(m, r, row, h, column, Insert(h[column - 1])))
            || Chooses(m, r, row, h, column, Delete)
  {
    if row > 0 && column > 0 {
      assert CellFollows(m, r, row, h, column);
      if r[row - 1] == h[column - 1] {
        CellTakesTheDiagonal(m, r, row, h, column);
      }
    }
  }

  lemma ChosenIsGreedy<W>(m: array2<int>, r: seq<W>, row: nat, h: seq<W>, column: nat, e: Edit<W>)
    requires IsEditMatrix(m, r, h) && row <= |r| && column <= |h| && Chooses(m, r, row, h, column, e)
    ensures IsGreedy(r, row, h, column, e)
  {
    CellIsDistance(m, r, row, h, column);
    if row > 0 && column > 0 {
      CellIsDistance(m, r, row - 1, h, column - 1);
    }
    if column > 0 {
      CellIsDistance(m, r, row, h, column - 1);
    }
  }

  function RowBefore<W>(e: Edit<W>, row: int): int {
    if e.Insert? then row else row - 1
  }

  function ColumnBefore<W>(e: Edit<W>, column: int): int {
    if e.Delete? then column else column - 1
  }

  lemma StaysOnTrack<W>(m: array2<int>, r: seq<W>, row: nat, h: seq<W>, column: nat, e: Edit<W>, script: Script<W>)
    requires IsEditMatrix(m, r, h) && OnTrack(m, r, row, h, column, script)
    requires row + column > 0 && Chooses(m, r, row, h, column, e)
    ensures RowBefore(e, row) >= 0 && ColumnBefore(e, column) >= 0
    ensures OnTrack(m, r, RowBefore(e, row), h, ColumnBefore(e, column), Then(e, script))
  {
    ChosenIsGreedy(m, r, row, h, column, e);
    GreedyTakes(r, row, h, column, e, script);
    SomeBranchApplies(m, r, row, h, column);
  }

  lemma StartsOnTrack<W>(m: array2<int>, r: seq<W>, h: seq<W>)
    requires IsEditMatrix(m, r, h)
    ensures OnTrack(m, r, |r|, h, |h|, Done)
  {
    assert Greedy(r, |r|, h, |h|) + [] == Greedy(r, |r|, h, |h|);
  }

  lemma EndsOnTrack<W(!new)>(m: array2<int>, r: seq<W>, h: seq<W>, script: Script<W>)
    requires IsEditMatrix(m, r, h) && OnTrack(m, r, 0, h, 0, script)
    ensures Cost(script) == m[|r|, |h|] && ComesFirstOfAll(script, r, h)
  {
    assert [] + Edits(script) == Edits(script);
    CellIsDistance(m, r, |r|, h, |h|);
    GreedyScriptComesFirstOfAll(script, r, h);
  }

  /** `backtrackEdits`. The counts are those of one script that costs what the corner cell says; among all that do, it
      comes first. The last branch, which the source does not guard, is reached only with `row > 0`. */
  method BacktrackEdits<W(==, !new)>(reference: seq<W>, hypothesis: seq<W>, matrix: array2<int>)
    returns (counts: EditCounts)
    requires IsEditMatrix(matrix, reference, hypothesis)
    ensures exists script: Script<W> ::
              && CountsOf(script) == counts
              && Walks(script, reference, 0, hypothesis, 0)
              && Genuine(script, reference, 0)
              && Cost(script) == matrix[|reference|, |hypothesis|]
              && ComesFirstOfAll(script, reference, hypothesis)
  {
    var row, column := |reference|, |hypothesis|;
    var substitutions, insertions, deletions := 0, 0, 0;
    ghost var script: Script<W> := Done;
    StartsOnTrack(matrix, reference, hypothesis);

    while row > 0 || column > 0
      invariant 0 <= row <= |reference| && 0 <= column <= |hypothesis|
      invariant OnTrack(matrix, reference, row, hypothesis, column, script)
      invariant CountsOf(script) == EditCounts(substitutions, insertions, deletions)
      decreases row + column
    {
      SomeBranchApplies(matrix, reference, row, hypothesis, column);

      if row > 0 && column > 0 && reference[row - 1] == hypothesis[column - 1]
         && matrix[row, column] == matrix[row - 1, column - 1]
      {
        StaysOnTrack(matrix, reference, row, hypothesis, column, Keep, script);
        script := Then(Keep, script);
        row := row - 1;
        column := column - 1;
        continue;
      }

      if row > 0 && column > 0 && matrix[row, column] == matrix[row - 1, column - 1] + 1 {
        StaysOnTrack(matrix, reference, row, hypothesis, column, Substitute(hypothesis[column - 1]), script);
        script := Then(Substitute(hypothesis[column - 1]), script);
        substitutions := substitutions + 1;
        row := row - 1;
        column := column - 1;
        continue;
      }

      if column > 0 && matrix[row, column] == matrix[row, column - 1] + 1 {
        StaysOnTrack(matrix, reference, row, hypothesis, column, Insert(hypothesis[column - 1]), script);
        script := Then(Insert(hypothesis[column - 1]), script);
        insertions := insertions + 1;
        column := column - 1;
        continue;
      }

      StaysOnTrack(matrix, reference, row, hypothesis, column, Delete, script);
      script := Then(Delete, script);
      deletions := deletions + 1;
      row := row - 1;
    }

    counts := EditCounts(substitutions, insertions, deletions);
    EndsOnTrack(matrix, reference, hypothesis, script);
  }

  // ------------------------------------------------------------------ accuracy

  /** The counts belong to one cheapest script, whose substitutions are all genuine and which comes first among the
      cheapest. */
  ghost predicate OptimalCounts<W(!new)>(counts: EditCounts, r: seq<W>, h: seq<W>) {
    exists script: Script<W> ::
      && IsCheapest(script, r, h) && Genuine(script, r, 0) && ComesFirstOfAll(script, r, h)
      && CountsOf(script) == counts && Cost(script) == counts.Total()
  }

  lemma BacktrackIsOptimal<W(!new)>(m: array2<int>, r: seq<W>, h: seq<W>, script: Script<W>)
    requires IsEditMatrix(m, r, h)
    requires Walks(script, r, 0, h, 0) && Cost(script) == m[|r|, |h|]
    ensures IsCheapest(script, r, h)
    ensures Cost(script) == CountsOf(script).Total()
    ensures Insertions(script) - Deletions(script) == |h| - |r|
    ensures Cost(script) == 0 <==> r == h
  {
    assert h[0..] == h;
    CellIsDistance(m, r, |r|, h, |h|);
    WalksIffApplies(script, r, 0, h, 0);
    CheapestScript(script, r, h);
    CostIsTheSumOfTheCounts(script);
    LengthBalance(script, r, 0, h, 0);
    DistanceSeparates(r, h);
  }

  /** A walk's insertions minus deletions is the difference of the remaining lengths. */
  lemma {:induction false} LengthBalance<W>(script: Script<W>, r: seq<W>, i: nat, h: seq<W>, j: nat)
    requires Walks(script, r, i, h, j)
    ensures Insertions(script) - Deletions(script) == (|h| - j) - (|r| - i)
  {
    match script
    case Done =>
    case Then(Insert(_), rest) => LengthBalance(rest, r, i, h, j + 1);
    case Then(Delete, rest) => LengthBalance(rest, r, i + 1, h, j);
    case Then(_, rest) => LengthBalance(rest, r, i + 1, h, j + 1);
  }

  datatype AccuracyMetrics = AccuracyMetrics(
    referenceWordCount: nat,
    hypothesisWordCount: nat,
    counts: EditCounts,
    wordErrorRate: real,
    accuracy: real
  )

  /** The edit counts of two word sequences: fill the matrix, then walk back through it. */
  method CountEdits<W(==, !new)>(reference: seq<W>, hypothesis: seq<W>) returns (edits: EditCounts)
    ensures OptimalCounts(edits, reference, hypothesis)
    ensures edits.insertions - edits.deletions == |hypothesis| - |reference|
    ensures edits.Total() == 0 <==> reference == hypothesis
  {
    var matrix := CreateEditMatrix(reference, hypothesis);
    edits := BacktrackEdits(reference, hypothesis, matrix);
    ghost var script: Script<W> :|
      && CountsOf(script) == edits
      && Walks(script, reference, 0, hypothesis, 0)
      && Genuine(script, reference, 0)
      && Cost(script) == matrix[|reference|, |hypothesis|]
      && ComesFirstOfAll(script, reference, hypothesis);
    BacktrackIsOptimal(matrix, reference, hypothesis, script);
  }

  /** `calculateTranscriptionAccuracy` on already tokenised words. */
  method CalculateTranscriptionAccuracy<W(==, !new)>(reference: seq<W>, hypothesis: seq<W>)
    returns (metrics: AccuracyMetrics)
    ensures metrics.referenceWordCount == |reference| && metrics.hypothesisWordCount == |hypothesis|
    ensures OptimalCounts(metrics.counts, reference, hypothesis)
    ensures metrics.counts.insertions - metrics.counts.deletions == |hypothesis| - |reference|
    ensures IsErrorRate(metrics.wordErrorRate, metrics.counts.Total(), |reference|, |hypothesis|)
    ensures metrics.wordErrorRate == 0.0 <==> reference == hypothesis
    ensures metrics.accuracy == if metrics.wordErrorRate <= 1.0 then 1.0 - metrics.wordErrorRate else 0.0
    ensures metrics.accuracy == 1.0 <==> reference == hypothesis
    ensures 0.0 <= metrics.accuracy <= 1.0
  {
    var edits := CountEdits(reference, hypothesis);
    var wordErrorRate := WordErrorRate(edits.Total(), |reference|, |hypothesis|);
    RateIsZeroExactly(wordErrorRate, edits.Total(), |reference|, |hypothesis|);
    metrics := AccuracyMetrics(|reference|, |hypothesis|, edits, wordErrorRate, Accuracy(wordErrorRate));
  }

  /** What the error rate of so many errors is: errors per reference word, and without reference words 0 or 1 by whether
      anything was heard. */
  ghost predicate IsErrorRate(rate: real, errors: nat, referenceWords: nat, hypothesisWords: nat) {
    && (referenceWords > 0 ==> rate * referenceWords as real == errors as real)
    && (referenceWords == 0 ==> rate == if hypothesisWords == 0 then 0.0 else 1.0)
  }

  lemma RateIsZeroExactly(rate: real, errors: nat, referenceWords: nat, hypothesisWords: nat)
    requires IsErrorRate(rate, errors, referenceWords, hypothesisWords)
    ensures rate == 0.0 <==> if referenceWords == 0 then hypothesisWords == 0 else errors == 0
  {
  }

  /** Errors per reference word; with no reference words, 0 or 1 by whether anything was heard. */
  function WordErrorRate(errors: nat, referenceWords: nat, hypothesisWords: nat): (rate: real)
    ensures rate >= 0.0
    ensures IsErrorRate(rate, errors, referenceWords, hypothesisWords)
  {
    if referenceWords == 0 then (if hypothesisWords == 0 then 0.0 else 1.0)
    else errors as real / referenceWords as real
  }

  function Accuracy(rate: real): (accuracy: real)
    requires rate >= 0.0
    ensures 0.0 <= accuracy <= 1.0
    ensures accuracy + rate == 1.0 || (accuracy == 0.0 && rate > 1.0)
  {
    if 1.0 - rate > 0.0 then 1.0 - rate else 0.0
  }
}
