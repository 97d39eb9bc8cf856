/**
 * Text helpers shared by the resolvers: ASCII lower-casing (the model of
 * Python's str.lower) and the order Python uses to compare and sort strings
 * (code point by code point, a proper prefix first).
 */
module Order {

  function LowerChar(c: char): char
  {
    if 'A' <= c <= 'Z' then (c as int + 32) as char else c
  }

  /** str.lower(), restricted to ASCII letters. */
  function Lower(s: string): string
  {
    seq(|s|, i requires 0 <= i < |s| => LowerChar(s[i]))
  }

  /**
   * Python's a < b on str. Dafny's own < on sequences means "proper prefix",
   * so the lexicographic order is spelled out here.
   */
  predicate LexLess(a: string, b: string)
  {
    if a == [] then b != []
    else if b == [] then false
    else if a[0] != b[0] then a[0] < b[0]
    else LexLess(a[1..], b[1..])
  }

  /** Python's a <= b on str. */
  predicate LexLe(a: string, b: string)
  {
    a == b || LexLess(a, b)
  }

  lemma {:induction false} LexLessIrreflexive(a: string)
    ensures !LexLess(a, a)
  {
    if a != [] {
      LexLessIrreflexive(a[1..]);
    }
  }

  lemma {:induction false} LexLessTransitive(a: string, b: string, c: string)
    requires LexLess(a, b) && LexLess(b, c)
    ensures LexLess(a, c)
  {
    if a != [] && b != [] && c != [] && a[0] == b[0] && b[0] == c[0] {
      LexLessTransitive(a[1..], b[1..], c[1..]);
    }
  }

  /** Any two strings are equal or ordered one way: str comparison is total. */
  lemma {:induction false} LexTrichotomy(a: string, b: string)
    ensures a == b || LexLess(a, b) || LexLess(b, a)
  {
    if a != [] && b != [] && a[0] == b[0] {
      LexTrichotomy(a[1..], b[1..]);
      if a[1..] == b[1..] {
        assert a == [a[0]] + a[1..] && b == [b[0]] + b[1..];
      }
    }
  }

  lemma {:induction false} LexLessAsymmetric(a: string, b: string)
    requires LexLess(a, b)
    ensures !LexLess(b, a)
  {
    if LexLess(b, a) {
      LexLessTransitive(a, b, a);
      LexLessIrreflexive(a);
    }
  }

  lemma LexLeTransitive(a: string, b: string, c: string)
    requires LexLe(a, b) && LexLe(b, c)
    ensures LexLe(a, c)
  {
    if a != b && b != c {
      LexLessTransitive(a, b, c);
    }
  }

  lemma LexLeTotal(a: string, b: string)
    ensures LexLe(a, b) || LexLe(b, a)
  {
    LexTrichotomy(a, b);
  }

  /** Sorted ascending with no repeats: the shape of sorted(set_of_str). */
  ghost predicate StrictlyAscending(s: seq<string>)
  {
    forall i, j :: 0 <= i < j < |s| ==> LexLess(s[i], s[j])
  }

  /**
   * set.add on a set of strings held as a strictly ascending sequence:
   * the element ends up in the set, nothing else is added or lost, and the
   * sequence stays strictly ascending.
   */
  function AddSorted(s: seq<string>, x: string): (r: seq<string>)
    requires StrictlyAscending(s)
    ensures StrictlyAscending(r)
    ensures forall y :: y in r <==> y in s || y == x
    ensures x in s ==> r == s
    ensures x !in s ==> |r| == |s| + 1
  {
    if s == [] then [x]
    else if x == s[0] then s
    else if LexLess(x, s[0]) then
      PrependAscending(x, s);
      [x] + s
    else
      LexTrichotomy(x, s[0]);
      var rest := AddSorted(s[1..], x);
      assert forall y :: y in rest ==> LexLess(s[0], y);
      [s[0]] + rest
  }

  lemma PrependAscending(x: string, s: seq<string>)
    requires StrictlyAscending(s) && s != [] && LexLess(x, s[0])
    ensures StrictlyAscending([x] + s)
    ensures x !in s
  {
    forall j | 0 <= j < |s| ensures LexLess(x, s[j]) && x != s[j] {
      if j > 0 {
        LexLessTransitive(x, s[0], s[j]);
      }
      LexLessIrreflexive(s[j]);
    }
  }

  /**
   * Two strictly ascending sequences with the same elements are the same
   * sequence: sorted(set) is determined by the set.
   */
  lemma {:induction false} AscendingUnique(a: seq<string>, b: seq<string>)
    requires StrictlyAscending(a) && StrictlyAscending(b)
    requires forall y :: y in a <==> y in b
    ensures a == b
  {
    assert a != [] ==> a[0] in b;
    assert b != [] ==> b[0] in a;
    if a != [] && b != [] {
      if a[0] != b[0] {
        var i :| 0 <= i < |a| && a[i] == b[0];
        var j :| 0 <= j < |b| && b[j] == a[0];
        assert LexLess(a[0], b[0]);
        assert LexLess(b[0], a[0]);
        LexLessAsymmetric(a[0], b[0]);
      }
      forall y ensures y in a[1..] <==> y in b[1..] {
        if y in a[1..] {
          var i :| 1 <= i < |a| && a[i] == y;
          LexLessIrreflexive(y);
          assert y in a;
          var k :| 0 <= k < |b| && b[k] == y;
          assert k != 0;
          assert b[1..][k - 1] == y;
        }
        if y in b[1..] {
          var j :| 1 <= j < |b| && b[j] == y;
          LexLessIrreflexive(y);
          assert y in b;
          var k :| 0 <= k < |a| && a[k] == y;
          assert k != 0;
          assert a[1..][k - 1] == y;
        }
      }
      AscendingUnique(a[1..], b[1..]);
    }
  }
}
