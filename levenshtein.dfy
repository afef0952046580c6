/**
 * Levenshtein edit distance, defined by the Wagner–Fischer recurrence over prefixes:
 * the distance between two prefixes is the cheapest of deleting the last character of
 * the first, inserting the last character of the second, or substituting (free when
 * the two last characters are equal).
 */
module Levenshtein {

  function Min3(x: nat, y: nat, z: nat): (m: nat)
    ensures m <= x && m <= y && m <= z
  {
    if x <= y && x <= z then x else if y <= z then y else z
  }

  /** Substitution cost of two characters. */
  function Cost(x: char, y: char): nat {
    if x == y then 0 else 1
  }

  function Lev(s: string, t: string): nat
    decreases |s| + |t|
  {
    if |s| == 0 then |t|
    else if |t| == 0 then |s|
    else Min3(Lev(s[..|s| - 1], t) + 1,
              Lev(s, t[..|t| - 1]) + 1,
              Lev(s[..|s| - 1], t[..|t| - 1]) + Cost(s[|s| - 1], t[|t| - 1]))
  }

  /** The distance does not depend on the order of its arguments. */
  lemma {:induction false} LevSymmetric(s: string, t: string)
    ensures Lev(s, t) == Lev(t, s)
    decreases |s| + |t|
  {
    if |s| > 0 && |t| > 0 {
      LevSymmetric(s[..|s| - 1], t);
      LevSymmetric(s, t[..|t| - 1]);
      LevSymmetric(s[..|s| - 1], t[..|t| - 1]);
    }
  }

  /** The distance is zero exactly when the two strings are equal. */
  lemma {:induction false} LevZeroIffEqual(s: string, t: string)
    ensures Lev(s, t) == 0 <==> s == t
    decreases |s| + |t|
  {
    if |s| > 0 && |t| > 0 {
      var s', t' := s[..|s| - 1], t[..|t| - 1];
      LevZeroIffEqual(s', t');
      assert s == s' + [s[|s| - 1]] && t == t' + [t[|t| - 1]];
      if s == t {
        assert Lev(s', t') + Cost(s[|s| - 1], t[|t| - 1]) == 0;
      }
    }
  }

  /** The distance never exceeds the longer length. */
  lemma {:induction false} LevAtMostLonger(s: string, t: string)
    ensures Lev(s, t) <= if |s| >= |t| then |s| else |t|
    decreases |s| + |t|
  {
    if |s| > 0 && |t| > 0 {
      LevAtMostLonger(s[..|s| - 1], t[..|t| - 1]);
    }
  }

  /** The distance is at least the difference of the lengths. */
  lemma {:induction false} LevAtLeastLengthGap(s: string, t: string)
    ensures Lev(s, t) >= |s| - |t| && Lev(s, t) >= |t| - |s|
    decreases |s| + |t|
  {
    if |s| > 0 && |t| > 0 {
      LevAtLeastLengthGap(s[..|s| - 1], t);
      LevAtLeastLengthGap(s, t[..|t| - 1]);
      LevAtLeastLengthGap(s[..|s| - 1], t[..|t| - 1]);
    }
  }

  /** One step of the recurrence: each of the three moves bounds the distance from above. */
  lemma LevSteps(s: string, t: string)
    requires |s| > 0 && |t| > 0
    ensures Lev(s, t) <= Lev(s[..|s| - 1], t) + 1
    ensures Lev(s, t) <= Lev(s, t[..|t| - 1]) + 1
    ensures Lev(s, t) <= Lev(s[..|s| - 1], t[..|t| - 1]) + Cost(s[|s| - 1], t[|t| - 1])
  {
  }

  /** Appending the same character to both strings never increases the distance. */
  lemma CommonLast(s: string, t: string, c: char)
    ensures Lev(s + [c], t + [c]) <= Lev(s, t)
  {
    LevSteps(s + [c], t + [c]);
    assert (s + [c])[..|s|] == s && (t + [c])[..|t|] == t;
  }

  /** Appending a character to one string costs at most one. */
  lemma OneMore(s: string, t: string, c: char)
    ensures Lev(s + [c], t) <= Lev(s, t) + 1
  {
    if |t| == 0 {
    } else {
      LevSteps(s + [c], t);
      assert (s + [c])[..|s|] == s;
    }
  }

  // The distances the repository's unit test expects (acorn/acorns, acorn/corn, acorn/o,
  // acorn/horn, horn/acorn). They are proved for arbitrary characters in the letters'
  // places, so that the verifier does not evaluate the recursion on literal strings.

  /** A string and itself followed by one more character are one edit apart. */
  lemma OneAppended(s: string, c: char)
    ensures Lev(s, s + [c]) == 1
  {
    LevAtLeastLengthGap(s, s + [c]);
    LevZeroIffEqual(s, s);
    OneMore(s, s, c);
    LevSymmetric(s + [c], s);
  }

  lemma AcornAcorns()
    ensures Lev("acorn", "acorns") == 1
  {
    OneAppended("acorn", 's');
    assert "acorn" + ['s'] == "acorns";
  }

  lemma AcornCornShape(a: char, c: char, o: char, r: char, n: char)
    ensures Lev([a, c, o, r, n], [c, o, r, n]) == 1
  {
    CommonLast([a], [], c);
    CommonLast([a, c], [c], o);
    CommonLast([a, c, o], [c, o], r);
    CommonLast([a, c, o, r], [c, o, r], n);
    assert [a] + [c] == [a, c];
    assert [a, c] + [o] == [a, c, o] && [c] + [o] == [c, o];
    assert [a, c, o] + [r] == [a, c, o, r] && [c, o] + [r] == [c, o, r];
    assert [a, c, o, r] + [n] == [a, c, o, r, n] && [c, o, r] + [n] == [c, o, r, n];
    LevAtLeastLengthGap([a, c, o, r, n], [c, o, r, n]);
  }

  lemma AcornCorn()
    ensures Lev("acorn", "corn") == 1
  {
    AcornCornShape('a', 'c', 'o', 'r', 'n');
  }

  lemma AcornOShape(a: char, c: char, o: char, r: char, n: char)
    ensures Lev([a, c, o, r, n], [o]) == 4
  {
    CommonLast([a, c], [], o);
    OneMore([a, c, o], [o], r);
    OneMore([a, c, o, r], [o], n);
    assert [a, c] + [o] == [a, c, o] && [] + [o] == [o];
    assert [a, c, o] + [r] == [a, c, o, r];
    assert [a, c, o, r] + [n] == [a, c, o, r, n];
    LevAtLeastLengthGap([a, c, o, r, n], [o]);
  }

  lemma AcornO()
    ensures Lev("acorn", "o") == 4
  {
    AcornOShape('a', 'c', 'o', 'r', 'n');
  }

  lemma HornAcornShape(h: char, o: char, r: char, n: char, a: char, c: char)
    requires h != a && h != c && o != c && r != o
    ensures Lev([h, o, r, n], [a, c, o, r, n]) == 2
  {
    HornAcornStep1(h, a, c);
    HornAcornStep2(h, o, a, c);
    HornAcornStep3(h, o, r, a, c);
    LevLowerSteps([h, o, r, n], [a, c, o, r, n]);
    assert [h, o, r, n][..3] == [h, o, r] && [a, c, o, r, n][..4] == [a, c, o, r];
    LevAtLeastLengthGap([h, o, r], [a, c, o, r, n]);
    LevZeroIffEqual([h, o, r, n], [a, c, o, r]);
    CommonLast([h, o, r], [a, c, o, r], n);
    assert [h, o, r] + [n] == [h, o, r, n] && [a, c, o, r] + [n] == [a, c, o, r, n];
  }

  lemma HornAcornStep1(h: char, a: char, c: char)
    requires h != a && h != c
    ensures Lev([h], [a, c]) == 2
  {
    LevSteps([h], [a, c]);
    LevLowerSteps([h], [a, c]);
    assert [h][..0] == [] && [a, c][..1] == [a];
    LevZeroIffEqual([h], [a]);
  }

  lemma HornAcornStep2(h: char, o: char, a: char, c: char)
    requires h != a && h != c && o != c
    ensures Lev([h, o], [a, c, o]) == 2
  {
    HornAcornStep1(h, a, c);
    CommonLast([h], [a, c], o);
    assert [h] + [o] == [h, o] && [a, c] + [o] == [a, c, o];
    LevLowerSteps([h, o], [a, c, o]);
    assert [h, o][..1] == [h] && [a, c, o][..2] == [a, c];
    LevAtLeastLengthGap([h], [a, c, o]);
    LevZeroIffEqual([h, o], [a, c]);
  }

  lemma HornAcornStep3(h: char, o: char, r: char, a: char, c: char)
    requires h != a && h != c && o != c && r != o
    ensures Lev([h, o, r], [a, c, o, r]) == 2
  {
    HornAcornStep2(h, o, a, c);
    CommonLast([h, o], [a, c, o], r);
    assert [h, o] + [r] == [h, o, r] && [a, c, o] + [r] == [a, c, o, r];
    LevLowerSteps([h, o, r], [a, c, o, r]);
    assert [h, o, r][..2] == [h, o] && [a, c, o, r][..3] == [a, c, o];
    LevAtLeastLengthGap([h, o], [a, c, o, r]);
    LevZeroIffEqual([h, o, r], [a, c, o]);
  }

  lemma HornAcorn()
    ensures Lev("horn", "acorn") == 2
  {
    HornAcornShape('h', 'o', 'r', 'n', 'a', 'c');
  }

  lemma AcornHorn()
    ensures Lev("acorn", "horn") == 2
  {
    HornAcorn();
    LevSymmetric("acorn", "horn");
  }

  /** The recurrence from below: the distance is one of the three moves. */
  lemma LevLowerSteps(s: string, t: string)
    requires |s| > 0 && |t| > 0
    ensures Lev(s, t) == Lev(s[..|s| - 1], t) + 1
         || Lev(s, t) == Lev(s, t[..|t| - 1]) + 1
         || Lev(s, t) == Lev(s[..|s| - 1], t[..|t| - 1]) + Cost(s[|s| - 1], t[|t| - 1])
  {
  }
}
