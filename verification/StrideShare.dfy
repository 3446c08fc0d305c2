// Stride scheduling of a fixed set of competitors, as a game: each turn goes to one that
// nobody is behind on the circle of strides and charges it its pass.
module StrideShare {
  import opened SkewTree
  import opened StrideOrder
  import opened Words
  import opened Modular

  // The competitors and what a turn charges each of them, less than half the circle.
  ghost predicate Passes<K>(pass: map<K, int>, r: set<K>) {
    r <= pass.Keys && forall k | k in r :: 0 <= pass[k] < TWO_31
  }

  ghost predicate Players<K>(stride: map<K, int>, pass: map<K, int>, r: set<K>, turns: seq<K>) {
    && r <= stride.Keys
    && Passes(pass, r)
    && forall n | 0 <= n < |turns| :: turns[n] in r
  }

  // The strides after the given turns.
  ghost function Charged<K>(stride: map<K, int>, pass: map<K, int>, r: set<K>, turns: seq<K>): (c: map<K, int>)
    requires Players(stride, pass, r, turns)
    ensures c.Keys == stride.Keys
  {
    if turns == [] then stride
    else
      var n := |turns| - 1;
      Charge(Charged(stride, pass, r, turns[..n]), turns[n], pass[turns[n]])
  }

  // Every turn went to one that nobody was behind.
  ghost predicate Fair<K>(stride: map<K, int>, pass: map<K, int>, r: set<K>, turns: seq<K>)
    requires Players(stride, pass, r, turns)
  {
    turns != [] ==>
      var n := |turns| - 1;
      && Fair(stride, pass, r, turns[..n])
      && Below(ByStride(Charged(stride, pass, r, turns[..n])), turns[n], r)
  }

  lemma {:induction false} OneMoreTurn<K>(stride: map<K, int>, pass: map<K, int>, r: set<K>, turns: seq<K>, k: K)
    requires Players(stride, pass, r, turns) && Fair(stride, pass, r, turns)
    requires k in r && Below(ByStride(Charged(stride, pass, r, turns)), k, r)
    ensures Players(stride, pass, r, turns + [k]) && Fair(stride, pass, r, turns + [k])
    ensures Charged(stride, pass, r, turns + [k]) == Charge(Charged(stride, pass, r, turns), k, pass[k])
  {
    assert (turns + [k])[..|turns|] == turns;
  }

  // How many of the turns went to members of c.
  ghost function CountIn<K>(turns: seq<K>, c: set<K>): (n: nat) {
    if turns == [] then 0
    else CountIn(turns[..|turns| - 1], c) + If(turns[|turns| - 1] in c, 1)
  }

  ghost function Count<K>(turns: seq<K>, k: K): nat {
    CountIn(turns, {k})
  }

  function If(b: bool, n: int): (m: int)
    ensures n >= 0 ==> m >= 0
  {
    if b then n else 0
  }

  // ---------------------------------------------------------------- strides count turns

  lemma OneMore(c: int, p: int, b: bool)
    ensures (c + If(b, 1)) * p == c * p + If(b, p)
  {
    if b {
      Expand(p, c, 1);
    }
  }

  lemma ChargeAgain(x: int, y: int)
    ensures (x % TWO_32 + y) % TWO_32 == (x + y) % TWO_32
  {
  }

  // The stride x after c charges of p.
  function ChargedTimes(x: int, c: int, p: int): int {
    (x + c * p) % TWO_32
  }

  lemma ChargesAddUp(x: int, c: int, p: int, b: bool, y: int)
    requires y == ChargedTimes(x, c, p)
    ensures (y + If(b, p)) % TWO_32 == ChargedTimes(x, c + If(b, 1), p)
  {
    OneMore(c, p, b);
    ChargeAgain(x + c * p, If(b, p));
  }

  // A stride counts the turns, modulo the width of the counter.
  lemma {:induction false} StrideCountsTurns<K>(
      stride: map<K, int>, pass: map<K, int>, r: set<K>, turns: seq<K>, k: K)
    requires Players(stride, pass, r, turns) && k in r && 0 <= stride[k] < TWO_32
    ensures Charged(stride, pass, r, turns)[k] == ChargedTimes(stride[k], Count(turns, k), pass[k])
  {
    if turns != [] {
      var n := |turns| - 1;
      var x := Charged(stride, pass, r, turns[..n])[k];
      StrideCountsTurns(stride, pass, r, turns[..n], k);
      ChargesAddUp(stride[k], Count(turns[..n], k), pass[k], turns[n] == k, x);
    }
  }

  // ---------------------------------------------------------------- leads

  // How far k is ahead of j on the circle.
  function Lead<K>(stride: map<K, int>, k: K, j: K): int
    requires k in stride && j in stride
  {
    Int(stride[k] - stride[j])
  }

  lemma LeadFlips(x: int, y: int)
    requires Int(x - y) >= 0
    ensures Int(y - x) == -Int(x - y)
  {
  }

  lemma LeadGrows(x: int, y: int, p: int)
    requires -TWO_31 <= Int(x - y) + p < TWO_31
    ensures Int((x + p) % TWO_32 - y) == Int(x - y) + p
  {
  }

  lemma LeadShrinks(x: int, y: int, p: int)
    requires -TWO_31 <= Int(x - y) - p < TWO_31
    ensures Int(x - (y + p) % TWO_32) == Int(x - y) - p
  {
  }

  lemma BelowLeads<K>(stride: map<K, int>, r: set<K>, k: K, j: K)
    requires r <= stride.Keys && k in r && j in r && Below(ByStride(stride), k, r)
    ensures -TWO_31 < Lead(stride, k, j) <= 0 <= Lead(stride, j, k)
  {
    assert Le(ByStride(stride), k, j);
    LeadFlips(stride[j], stride[k]);
  }

  lemma ChargeGrowsLead<K>(stride: map<K, int>, k: K, j: K, pass: nat)
    requires k in stride && j in stride && k != j && pass < TWO_31 && -TWO_31 < Lead(stride, k, j) <= 0
    ensures Lead(Charge(stride, k, pass), k, j) == Lead(stride, k, j) + pass
  {
    LeadGrows(stride[k], stride[j], pass);
  }

  lemma ChargeShrinksLead<K>(stride: map<K, int>, k: K, j: K, pass: nat)
    requires k in stride && j in stride && k != j && pass < TWO_31 && 0 <= Lead(stride, j, k)
    ensures Lead(Charge(stride, k, pass), j, k) == Lead(stride, j, k) - pass
  {
    LeadShrinks(stride[j], stride[k], pass);
  }

  // Charging one that nobody is behind moves its lead by its pass, without wrap-around.
  lemma {:induction false} ChargeMovesLead<K>(stride: map<K, int>, r: set<K>, k: K, pass: nat, i: K, j: K)
    requires r <= stride.Keys && k in r && i in r && j in r && i != j && pass < TWO_31
    requires Below(ByStride(stride), k, r)
    ensures Lead(Charge(stride, k, pass), i, j) == Lead(stride, i, j) + If(k == i, pass) - If(k == j, pass)
    ensures k == i ==> Lead(stride, i, j) <= 0
    ensures k == j ==> Lead(stride, i, j) >= 0
  {
    if k == i {
      BelowLeads(stride, r, i, j);
      ChargeGrowsLead(stride, i, j, pass);
    } else if k == j {
      BelowLeads(stride, r, j, i);
      ChargeShrinksLead(stride, j, i, pass);
    }
  }

  function Min(x: int, y: int): int {
    if x <= y then x else y
  }

  function Max(x: int, y: int): int {
    if x <= y then y else x
  }

  lemma LeadsAddUp(d: int, ci: int, ci': int, pi: int, bi: bool, cj: int, cj': int, pj: int, bj: bool)
    requires ci' == ci + If(bi, 1) && cj' == cj + If(bj, 1)
    ensures d + ci * pi - cj * pj + If(bi, pi) - If(bj, pj) == d + ci' * pi - cj' * pj
  {
    OneMore(ci, pi, bi);
    OneMore(cj, pj, bj);
  }

  lemma LeadsStayBounded(d: int, l: int, pi: int, bi: bool, pj: int, bj: bool)
    requires Min(d, -pj) <= l <= Max(d, pi) && pi >= 0 && pj >= 0
    requires !(bi && bj) && (bi ==> l <= 0) && (bj ==> l >= 0)
    ensures Min(d, -pj) <= l + If(bi, pi) - If(bj, pj) <= Max(d, pi)
  {
  }

  // The lead of i over j is what it was, plus what i has been charged, less what j has.
  // It never leaves the interval from minus j's pass to i's, once inside.
  lemma {:induction false} LeadStaysBounded<K>(
      stride: map<K, int>, pass: map<K, int>, r: set<K>, turns: seq<K>, i: K, j: K)
    requires Players(stride, pass, r, turns) && Fair(stride, pass, r, turns)
    requires i in r && j in r && i != j
    ensures var d := Lead(stride, i, j); var l := Lead(Charged(stride, pass, r, turns), i, j);
      && l == d + Count(turns, i) * pass[i] - Count(turns, j) * pass[j]
      && Min(d, -pass[j]) <= l <= Max(d, pass[i])
  {
    if turns != [] {
      var n := |turns| - 1;
      LeadStaysBounded(stride, pass, r, turns[..n], i, j);
      var x, k := Charged(stride, pass, r, turns[..n]), turns[n];
      ChargeMovesLead(x, r, k, pass[k], i, j);
      LeadsAddUp(Lead(stride, i, j), Count(turns[..n], i), Count(turns, i), pass[i], k == i,
                 Count(turns[..n], j), Count(turns, j), pass[j], k == j);
      LeadsStayBounded(Lead(stride, i, j), Lead(x, i, j), pass[i], k == i, pass[j], k == j);
    }
  }

  // Two that are never charged stay as far apart as they are.
  lemma {:induction false} FreeLeadStays<K>(
      stride: map<K, int>, pass: map<K, int>, r: set<K>, turns: seq<K>, i: K, j: K)
    requires Players(stride, pass, r, turns) && Fair(stride, pass, r, turns)
    requires i in r && j in r && i != j && pass[i] == 0 == pass[j]
    ensures Lead(Charged(stride, pass, r, turns), i, j) == Lead(stride, i, j)
  {
    LeadStaysBounded(stride, pass, r, turns, i, j);
  }

  // Turns are shared in inverse proportion to the passes: two that start level are charged
  // the same after any number of turns, to within their own passes.
  lemma {:induction false} LevelShare<K>(
      stride: map<K, int>, pass: map<K, int>, r: set<K>, turns: seq<K>, i: K, j: K)
    requires Players(stride, pass, r, turns) && Fair(stride, pass, r, turns)
    requires i in r && j in r && stride[i] == stride[j]
    ensures -pass[j] <= Count(turns, i) * pass[i] - Count(turns, j) * pass[j] <= pass[i]
  {
    if i != j {
      LeadStaysBounded(stride, pass, r, turns, i, j);
    }
  }

  lemma AtMostOne(c: int, p: int)
    requires c * p <= p && p > 0
    ensures c <= 1
  {
    if c > 1 {
      MultipleOrder(p, 2, c);
    }
  }

  // Beside one that is never charged, a level competitor gets one turn at most.
  lemma {:induction false} OneTurnAtMost<K>(
      stride: map<K, int>, pass: map<K, int>, r: set<K>, turns: seq<K>, i: K, j: K)
    requires Players(stride, pass, r, turns) && Fair(stride, pass, r, turns)
    requires i in r && j in r && stride[i] == stride[j] && pass[i] == 0 < pass[j]
    ensures Count(turns, j) <= 1
  {
    LevelShare(stride, pass, r, turns, i, j);
    AtMostOne(Count(turns, j), pass[j]);
  }

  // ---------------------------------------------------------------- waiting

  lemma {:induction false} CountWith<K>(turns: seq<K>, c: set<K>, k: K)
    requires k !in c
    ensures CountIn(turns, c + {k}) == CountIn(turns, c) + Count(turns, k)
  {
    if turns != [] {
      CountWith(turns[..|turns| - 1], c, k);
    }
  }

  lemma {:induction false} CountAll<K>(turns: seq<K>, c: set<K>)
    requires forall n | 0 <= n < |turns| :: turns[n] in c
    ensures CountIn(turns, c) == |turns|
  {
    if turns != [] {
      CountAll(turns[..|turns| - 1], c);
    }
  }

  lemma {:induction false} CountEmpty<K>(turns: seq<K>)
    ensures CountIn(turns, {}) == 0
  {
    if turns != [] {
      CountEmpty(turns[..|turns| - 1]);
    }
  }

  lemma AddBound(x: nat, y: nat, m: nat, n: nat, b: nat)
    requires x <= m * b && y <= b && n == m + 1
    ensures x + y <= n * b
  {
    Expand(b, m, 1);
  }

  lemma {:induction false} CountBounded<K>(turns: seq<K>, c: set<K>, b: nat)
    requires forall k | k in c :: Count(turns, k) <= b
    ensures CountIn(turns, c) <= |c| * b
    decreases |c|
  {
    if c == {} {
      CountEmpty(turns);
    } else {
      var k :| k in c;
      CountBounded(turns, c - {k}, b);
      CountWith(turns, c - {k}, k);
      assert c == c - {k} + {k};
      AddBound(CountIn(turns, c - {k}), Count(turns, k), |c - {k}|, |c|, b);
    }
  }

  lemma {:induction false} TurnsOfOthers<K>(turns: seq<K>, r: set<K>, i: K, b: nat)
    requires (forall n | 0 <= n < |turns| :: turns[n] in r) && i in r && Count(turns, i) == 0
    requires forall j | j in r && j != i :: Count(turns, j) <= b
    ensures |turns| <= (|r| - 1) * b
  {
    CountBounded(turns, r - {i}, b);
    CountAll(turns, r);
    CountWith(turns, r - {i}, i);
    assert r == r - {i} + {i};
  }

  // While i waits, j is charged at most i's lead and one more pass.
  lemma {:induction false} Overtaking<K>(
      stride: map<K, int>, pass: map<K, int>, r: set<K>, turns: seq<K>, i: K, j: K)
    requires Players(stride, pass, r, turns) && Fair(stride, pass, r, turns)
    requires i in r && j in r && i != j && Count(turns, i) == 0
    ensures Count(turns, j) * pass[j] <= Max(0, Lead(stride, i, j) + pass[j])
  {
    LeadStaysBounded(stride, pass, r, turns, i, j);
  }

  // k leads j by at most b of j's passes.
  ghost predicate LeadWithin<K>(stride: map<K, int>, pass: map<K, int>, k: K, j: K, b: nat)
    requires k in stride && j in stride && j in pass
  {
    Lead(stride, k, j) <= b * pass[j]
  }

  // However far ahead, it is less than half the circle.
  lemma LeadInPasses<K>(stride: map<K, int>, pass: map<K, int>, k: K, j: K)
    requires k in stride && j in stride && j in pass && pass[j] > 0
    ensures LeadWithin(stride, pass, k, j, TWO_31 - 1)
  {
    MultipleOrder(TWO_31 - 1, 1, pass[j]);
  }

  lemma AtMost(c: nat, p: int, d: int, b: nat)
    requires c * p <= Max(0, d + p) && p > 0 && d <= b * p
    ensures c <= b + 1
  {
    if c > b + 1 {
      MultipleOrder(p, b + 2, c);
      Expand(p, b, 2);
      assert false;
    }
  }

  // The turn by which one of r competitors runs: b + 1 turns of each other come first.
  function WaitBound(r: nat, b: nat): (w: nat)
    requires r > 0
    ensures w > 0
  {
    (r - 1) * (b + 1) + 1
  }

  // When i leads every other by at most b of that one's passes, it waits for b + 1 turns
  // of each at most.
  lemma {:induction false} WaitIsBounded<K>(
      stride: map<K, int>, pass: map<K, int>, r: set<K>, turns: seq<K>, i: K, b: nat)
    requires Players(stride, pass, r, turns) && Fair(stride, pass, r, turns)
    requires i in r && Count(turns, i) == 0
    requires forall j | j in r && j != i :: pass[j] > 0 && LeadWithin(stride, pass, i, j, b)
    ensures |turns| < WaitBound(|r|, b)
  {
    forall j | j in r && j != i ensures Count(turns, j) <= b + 1 {
      Overtaking(stride, pass, r, turns, i, j);
      AtMost(Count(turns, j), pass[j], Lead(stride, i, j), b);
    }
    TurnsOfOthers(turns, r, i, b + 1);
  }

  // Beside one that is never charged, all turns but so many go to such.
  lemma {:induction false} FreeOneRuns<K>(
      stride: map<K, int>, pass: map<K, int>, r: set<K>, turns: seq<K>, k: K) returns (z: K)
    requires Players(stride, pass, r, turns) && Fair(stride, pass, r, turns)
    requires k in r && pass[k] == 0 && |turns| > (|r| - 1) * TWO_31
    ensures z in r && pass[z] == 0 && Count(turns, z) > 0
  {
    if forall j | j in r && pass[j] == 0 :: Count(turns, j) == 0 {
      forall j | j in r && j != k ensures Count(turns, j) <= TWO_31 {
        if pass[j] > 0 {
          Overtaking(stride, pass, r, turns, k, j);
          LeadInPasses(stride, pass, k, j);
          AtMost(Count(turns, j), pass[j], Lead(stride, k, j), TWO_31 - 1);
        }
      }
      TurnsOfOthers(turns, r, k, TWO_31);
      assert false;
    }
    z :| z in r && pass[z] == 0 && Count(turns, z) > 0;
  }
}
