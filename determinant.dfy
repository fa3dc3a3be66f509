/** The cofactor determinant shared by every layout: 1 x 1 and 2 x 2 matrices have
    closed forms, larger ones expand along row 0 with alternating signs, and the
    0 x 0 matrix gets the empty sum 0. */
module Determinant {
  import opened Logical
  import opened Algebra
  import opened Shapes

  /** The sign of the cofactor in column j of row 0: +1 for even j, -1 for odd j. */
  function Sign(j: nat): int {
    if j % 2 == 0 then 1 else -1
  }

  /** The determinant of the n x n matrix `m` as the library computes it. The measure
      (n, 1) decreases through Expansion to the (n - 1) x (n - 1) minors, so the
      recursion is well-founded. */
  function Det(m: seq<seq<int>>, n: nat): int
    requires IsMatrix(m, n, n)
    decreases n, 1
  {
    if n == 1 then m[0][0]
    else if n == 2 then m[0][0] * m[1][1] - m[0][1] * m[1][0]
    else Expansion(m, n, n)
  }

  /** The first k terms of the cofactor expansion of `m` along row 0. */
  function Expansion(m: seq<seq<int>>, n: nat, k: nat): int
    requires IsMatrix(m, n, n) && k <= n
    decreases n, 0, k
  {
    if k == 0 then 0
    else
      MinorShape(m, n, n, 0, k - 1);
      Expansion(m, n, k - 1) + Sign(k - 1) * m[0][k - 1] * Det(Minor(m, 0, k - 1), n - 1)
  }

  /** The 0 x 0 matrix has determinant 0: the cofactor loop runs no times. */
  lemma DetEmpty(m: seq<seq<int>>)
    requires IsMatrix(m, 0, 0)
    ensures Det(m, 0) == 0
  {
  }

  /** The 2 x 2 closed form is the cofactor expansion of a 2 x 2 matrix, so the general
      rule holds for every size from 2 up; at size 1 it would give 0 instead, because the
      0 x 0 determinant is 0. */
  lemma DetIsExpansion(m: seq<seq<int>>, n: nat)
    requires IsMatrix(m, n, n) && n != 1
    ensures Det(m, n) == Expansion(m, n, n)
  {
    if n == 2 {
      MinorAt(m, 2, 2, 0, 0);
      MinorAt(m, 2, 2, 0, 1);
      assert Minor(m, 0, 0)[0][0] == m[1][1];
      assert Minor(m, 0, 1)[0][0] == m[1][0];
    }
  }

  /** The rule of Sarrus: an independent closed form for 3 x 3 matrices. */
  lemma DetThree(m: seq<seq<int>>)
    requires IsMatrix(m, 3, 3)
    ensures Det(m, 3) == m[0][0] * (m[1][1] * m[2][2] - m[1][2] * m[2][1])
                       - m[0][1] * (m[1][0] * m[2][2] - m[1][2] * m[2][0])
                       + m[0][2] * (m[1][0] * m[2][1] - m[1][1] * m[2][0])
  {
    ExpansionThree(m);
    MinorTwo(m, 0);
    MinorTwo(m, 1);
    MinorTwo(m, 2);
  }

  /** The three terms of the expansion of a 3 x 3 determinant along row 0. */
  lemma ExpansionThree(m: seq<seq<int>>)
    requires IsMatrix(m, 3, 3)
    ensures IsMatrix(Minor(m, 0, 0), 2, 2) && IsMatrix(Minor(m, 0, 1), 2, 2) && IsMatrix(Minor(m, 0, 2), 2, 2)
    ensures Det(m, 3) == m[0][0] * Det(Minor(m, 0, 0), 2) - m[0][1] * Det(Minor(m, 0, 1), 2)
                       + m[0][2] * Det(Minor(m, 0, 2), 2)
  {
    assert Sign(0) == 1 && Sign(1) == -1 && Sign(2) == 1;
    ExpansionStep(m, 3, 0);
    ExpansionStep(m, 3, 1);
    ExpansionStep(m, 3, 2);
  }

  /** The 2 x 2 determinant of the minor of a 3 x 3 matrix at row 0 and column k. */
  lemma MinorTwo(m: seq<seq<int>>, k: nat)
    requires IsMatrix(m, 3, 3) && k < 3
    ensures IsMatrix(Minor(m, 0, k), 2, 2)
    ensures var c0, c1 := if k == 0 then 1 else 0, if k == 2 then 1 else 2;
            Det(Minor(m, 0, k), 2) == m[1][c0] * m[2][c1] - m[1][c1] * m[2][c0]
  {
    MinorAt(m, 3, 3, 0, k);
    var mi := Minor(m, 0, k);
    var c0, c1 := if k == 0 then 1 else 0, if k == 2 then 1 else 2;
    assert mi[0][0] == m[1][c0] && mi[0][1] == m[1][c1] && mi[1][0] == m[2][c0] && mi[1][1] == m[2][c1];
  }

  /** Removing row 0 and column 0 of the identity leaves the identity one size smaller. */
  lemma MinorIdentity(n: nat)
    requires n >= 1
    ensures Minor(Identity(n), 0, 0) == Identity(n - 1)
  {
    MinorAt(Identity(n), n, n, 0, 0);
    var mi := Minor(Identity(n), 0, 0);
    forall a | 0 <= a < n - 1
      ensures mi[a] == Identity(n - 1)[a]
    {
      forall b | 0 <= b < n - 1
        ensures mi[a][b] == Identity(n - 1)[a][b]
      {
        assert mi[a][b] == Identity(n)[a + 1][b + 1];
      }
    }
  }

  /** When row 0 is zero past its first cell, only the first term of the expansion
      is non-zero. */
  lemma {:induction false} ExpansionFirstOnly(m: seq<seq<int>>, n: nat, k: nat)
    requires IsMatrix(m, n, n) && 1 <= k <= n
    requires forall j :: 1 <= j < n ==> m[0][j] == 0
    ensures IsMatrix(Minor(m, 0, 0), n - 1, n - 1)
    ensures Expansion(m, n, k) == m[0][0] * Det(Minor(m, 0, 0), n - 1)
    decreases k
  {
    ExpansionStep(m, n, k - 1);
    if k == 1 {
      assert Sign(0) == 1 && Expansion(m, n, 0) == 0;
    } else {
      var c := Sign(k - 1) * m[0][k - 1];
      assert c == 0 by {
        assert m[0][k - 1] == 0;
      }
      ExpansionFirstOnly(m, n, k - 1);
    }
  }

  /** The identity has determinant 1 at every positive size. */
  lemma {:induction false} DetIdentity(n: nat)
    requires n >= 1
    ensures Det(Identity(n), n) == 1
    decreases n
  {
    if n >= 3 {
      MinorIdentity(n);
      ExpansionFirstOnly(Identity(n), n, n);
      DetIdentity(n - 1);
    }
  }

  /** A matrix with an all-zero row has determinant 0. */
  lemma {:induction false} DetZeroRow(m: seq<seq<int>>, n: nat, r: nat)
    requires IsMatrix(m, n, n) && r < n
    requires forall j :: 0 <= j < n ==> m[r][j] == 0
    ensures Det(m, n) == 0
    decreases n, 1
  {
    if n >= 3 {
      ExpansionZeroRow(m, n, n, r);
    } else if n == 2 {
      assert m[r][0] == 0 && m[r][1] == 0;
    } else {
      assert m[0][0] == 0;
    }
  }

  /** Each term of the expansion vanishes: directly when row 0 is the zero row, and
      through the minor, whose row r - 1 is zero, otherwise. */
  lemma {:induction false} ExpansionZeroRow(m: seq<seq<int>>, n: nat, k: nat, r: nat)
    requires IsMatrix(m, n, n) && k <= n && r < n && n >= 2
    requires forall j :: 0 <= j < n ==> m[r][j] == 0
    ensures Expansion(m, n, k) == 0
    decreases n, 0, k
  {
    if k > 0 {
      ExpansionZeroRow(m, n, k - 1, r);
      if r > 0 {
        var mi := Minor(m, 0, k - 1);
        MinorAt(m, n, n, 0, k - 1);
        var zero := mi[r - 1];
        forall b | 0 <= b < n - 1
          ensures zero[b] == 0
        {
          assert zero[b] == m[r][if b < k - 1 then b else b + 1];
        }
        DetZeroRow(mi, n - 1, r - 1);
      } else {
        assert m[0][k - 1] == 0;
      }
    }
  }

  /** The 2 x 2 and 3 x 3 determinants from the test suite: -19 and 0. */
  lemma DetExamplesSmall()
    ensures Det([[3, 7], [1, -4]], 2) == -19
    ensures Det([[1, 2, 3], [4, 5, 6], [7, 8, 9]], 3) == 0
  {
    DetThree([[1, 2, 3], [4, 5, 6], [7, 8, 9]]);
  }

  /** The four terms of the expansion of a 4 x 4 determinant along row 0. */
  lemma DetFour(m: seq<seq<int>>)
    requires IsMatrix(m, 4, 4)
    ensures IsMatrix(Minor(m, 0, 0), 3, 3) && IsMatrix(Minor(m, 0, 1), 3, 3)
    ensures IsMatrix(Minor(m, 0, 2), 3, 3) && IsMatrix(Minor(m, 0, 3), 3, 3)
    ensures Det(m, 4) == m[0][0] * Det(Minor(m, 0, 0), 3) - m[0][1] * Det(Minor(m, 0, 1), 3)
                       + m[0][2] * Det(Minor(m, 0, 2), 3) - m[0][3] * Det(Minor(m, 0, 3), 3)
  {
    DetIsExpansion(m, 4);
    ExpansionFour(m);
  }

  /** The expansion of a 4 x 4 matrix along row 0, term by term. */
  lemma ExpansionFour(m: seq<seq<int>>)
    requires IsMatrix(m, 4, 4)
    ensures IsMatrix(Minor(m, 0, 0), 3, 3) && IsMatrix(Minor(m, 0, 1), 3, 3)
    ensures IsMatrix(Minor(m, 0, 2), 3, 3) && IsMatrix(Minor(m, 0, 3), 3, 3)
    ensures Expansion(m, 4, 4) == m[0][0] * Det(Minor(m, 0, 0), 3) - m[0][1] * Det(Minor(m, 0, 1), 3)
                               + m[0][2] * Det(Minor(m, 0, 2), 3) - m[0][3] * Det(Minor(m, 0, 3), 3)
  {
    ExpansionFourHalf(m);
    assert Sign(2) == 1 && Sign(3) == -1;
    ExpansionStep(m, 4, 2);
    ExpansionStep(m, 4, 3);
  }

  /** The first two terms of that expansion. */
  lemma ExpansionFourHalf(m: seq<seq<int>>)
    requires IsMatrix(m, 4, 4)
    ensures IsMatrix(Minor(m, 0, 0), 3, 3) && IsMatrix(Minor(m, 0, 1), 3, 3)
    ensures Expansion(m, 4, 2) == m[0][0] * Det(Minor(m, 0, 0), 3) - m[0][1] * Det(Minor(m, 0, 1), 3)
  {
    assert Sign(0) == 1 && Sign(1) == -1;
    ExpansionStep(m, 4, 0);
    ExpansionStep(m, 4, 1);
  }

  /** One more term of the expansion. */
  lemma ExpansionStep(m: seq<seq<int>>, n: nat, k: nat)
    requires IsMatrix(m, n, n) && k < n
    ensures IsMatrix(Minor(m, 0, k), n - 1, n - 1)
    ensures Expansion(m, n, k + 1) == Expansion(m, n, k) + Sign(k) * m[0][k] * Det(Minor(m, 0, k), n - 1)
  {
    MinorShape(m, n, n, 0, k);
  }

  /** The 4 x 4 determinant from the test suite: -376. */
  lemma DetExampleFour()
    ensures Det(ExampleFour, 4) == -376
  {
    DetFour(ExampleFour);
    ExampleFourMinors01();
    ExampleFourMinors23();
  }

  /** The 4 x 4 matrix of the test suite. */
  const ExampleFour: seq<seq<int>> := [[1, 3, 5, 9], [1, 3, 1, 7], [4, 3, 9, 7], [5, 2, 0, 9]]

  /** The determinants of its first two minors along row 0: 104 and -235. */
  lemma ExampleFourMinors01()
    ensures IsMatrix(Minor(ExampleFour, 0, 0), 3, 3) && Det(Minor(ExampleFour, 0, 0), 3) == 104
    ensures IsMatrix(Minor(ExampleFour, 0, 1), 3, 3) && Det(Minor(ExampleFour, 0, 1), 3) == -235
  {
    MinorThreeValue(ExampleFour, 0, [[3, 1, 7], [3, 9, 7], [2, 0, 9]], 104);
    MinorThreeValue(ExampleFour, 1, [[1, 1, 7], [4, 9, 7], [5, 0, 9]], -235);
  }

  /** The determinants of its last two minors along row 0: -39 and 110. */
  lemma ExampleFourMinors23()
    ensures IsMatrix(Minor(ExampleFour, 0, 2), 3, 3) && Det(Minor(ExampleFour, 0, 2), 3) == -39
    ensures IsMatrix(Minor(ExampleFour, 0, 3), 3, 3) && Det(Minor(ExampleFour, 0, 3), 3) == 110
  {
    MinorThreeValue(ExampleFour, 2, [[1, 3, 7], [4, 3, 7], [5, 2, 9]], -39);
    MinorThreeValue(ExampleFour, 3, [[1, 3, 1], [4, 3, 9], [5, 2, 0]], 110);
  }

  /** A minor given cell by cell, with its determinant by the rule of Sarrus. */
  lemma MinorThreeValue(m: seq<seq<int>>, k: nat, e: seq<seq<int>>, d: int)
    requires IsMatrix(m, 4, 4) && k < 4 && IsMatrix(e, 3, 3)
    requires forall a, b :: 0 <= a < 3 && 0 <= b < 3 ==> e[a][b] == m[a + 1][if b < k then b else b + 1]
    requires d == e[0][0] * (e[1][1] * e[2][2] - e[1][2] * e[2][1])
                - e[0][1] * (e[1][0] * e[2][2] - e[1][2] * e[2][0])
                + e[0][2] * (e[1][0] * e[2][1] - e[1][1] * e[2][0])
    ensures IsMatrix(Minor(m, 0, k), 3, 3) && Det(Minor(m, 0, k), 3) == d
  {
    MinorLiteral(m, k, e);
    DetThree(e);
  }

  /** A 3 x 3 minor of a 4 x 4 matrix along row 0, given cell by cell. */
  lemma MinorLiteral(m: seq<seq<int>>, k: nat, e: seq<seq<int>>)
    requires IsMatrix(m, 4, 4) && k < 4 && IsMatrix(e, 3, 3)
    requires forall a, b :: 0 <= a < 3 && 0 <= b < 3 ==> e[a][b] == m[a + 1][if b < k then b else b + 1]
    ensures Minor(m, 0, k) == e
  {
    MinorAt(m, 4, 4, 0, k);
    var mi := Minor(m, 0, k);
    forall a | 0 <= a < 3
      ensures mi[a] == e[a]
    {
      forall b | 0 <= b < 3
        ensures mi[a][b] == e[a][b]
      {
        assert mi[a][b] == m[a + 1][if b < k then b else b + 1];
      }
    }
  }
}
