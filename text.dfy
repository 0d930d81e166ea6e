/**
 * The string operations the program relies on when it compares names:
 * Java's String.trim and String.equalsIgnoreCase, and Postgres' TRIM and
 * LOWER as they appear in the catalog query.
 */
module Text {

  /**
   * Which characters a trim removes. Java's String.trim removes every
   * character whose code is at most U+0020 (space, tab, newline and the
   * other control characters); Postgres' TRIM(x) without a character list
   * removes the space character only.
   */
  datatype Pad = JavaWhitespace | SqlSpace

  predicate IsPad(k: Pad, c: char)
  {
    match k
    case JavaWhitespace => c <= ' '
    case SqlSpace => c == ' '
  }

  predicate AllPad(k: Pad, s: string)
  {
    forall i :: 0 <= i < |s| ==> IsPad(k, s[i])
  }

  /** Removes the leading pad characters of `s`. */
  function TrimStart(k: Pad, s: string): string
  {
    if s != [] && IsPad(k, s[0]) then TrimStart(k, s[1..]) else s
  }

  /** Removes the trailing pad characters of `s`. */
  function TrimEnd(k: Pad, s: string): string
  {
    if s != [] && IsPad(k, s[|s| - 1]) then TrimEnd(k, s[..|s| - 1]) else s
  }

  /** TrimStart drops a prefix made only of pads and stops at the first character that is not one. */
  lemma {:induction false} TrimStartShape(k: Pad, s: string)
    ensures var r := TrimStart(k, s);
      && |r| <= |s| && r == s[|s| - |r|..]
      && AllPad(k, s[..|s| - |r|])
      && (r != [] ==> !IsPad(k, r[0]))
  {
    if s != [] && IsPad(k, s[0]) {
      TrimStartShape(k, s[1..]);
      var r := TrimStart(k, s[1..]);
      assert s[1..][|s| - 1 - |r|..] == s[|s| - |r|..];
      forall i | 0 <= i < |s| - |r|
        ensures IsPad(k, s[i])
      {
        if i > 0 {
          assert s[i] == s[1..][..|s| - 1 - |r|][i - 1];
        }
      }
    }
  }

  /** TrimEnd drops a suffix made only of pads and stops at the last character that is not one. */
  lemma {:induction false} TrimEndShape(k: Pad, s: string)
    ensures var r := TrimEnd(k, s);
      && |r| <= |s| && r == s[..|r|]
      && AllPad(k, s[|r|..])
      && (r != [] ==> !IsPad(k, r[|r| - 1]))
  {
    if s != [] && IsPad(k, s[|s| - 1]) {
      TrimEndShape(k, s[..|s| - 1]);
      var r := TrimEnd(k, s[..|s| - 1]);
      assert s[..|s| - 1][..|r|] == s[..|r|];
      assert forall i :: 0 <= i < |s| - 1 - |r| ==> s[|r|..][i] == s[..|s| - 1][|r|..][i];
    }
  }

  /**
   * Removes the pad characters at both ends of `s`: what is left is no
   * longer than `s`, starts and ends with a character that is not a pad,
   * and is empty exactly when `s` was made only of pads.
   */
  function Trim(k: Pad, s: string): (r: string)
    ensures |r| <= |s|
    ensures r != [] ==> !IsPad(k, r[0]) && !IsPad(k, r[|r| - 1])
    ensures r == [] <==> AllPad(k, s)
  {
    TrimStartShape(k, s);
    TrimEndShape(k, TrimStart(k, s));
    TrimEnd(k, TrimStart(k, s))
  }

  /** Lower-cases one character; only the ASCII letters A to Z change. */
  function LowerChar(c: char): char
  {
    if 'A' <= c <= 'Z' then (c as int + ('a' as int - 'A' as int)) as char else c
  }

  /** Upper-cases one character; only the ASCII letters a to z change. */
  function UpperChar(c: char): char
  {
    if 'a' <= c <= 'z' then (c as int - ('a' as int - 'A' as int)) as char else c
  }

  /** Lower-cases a string, character by character (Postgres' LOWER). */
  function ToLower(s: string): (r: string)
    ensures |r| == |s|
    ensures forall i :: 0 <= i < |s| ==> r[i] == LowerChar(s[i])
  {
    if s == [] then [] else [LowerChar(s[0])] + ToLower(s[1..])
  }

  /**
   * Java's per-character test in String.equalsIgnoreCase: the characters
   * are equal, or their upper-case forms are, or the lower-case forms of
   * their upper-case forms are.
   */
  predicate CharEqualsIgnoreCase(c: char, d: char)
  {
    c == d || UpperChar(c) == UpperChar(d) || LowerChar(UpperChar(c)) == LowerChar(UpperChar(d))
  }

  /**
   * Java's String.equalsIgnoreCase: same length and pairwise equal
   * characters ignoring case, which for these letters is the same as
   * pairwise equal lower-case forms.
   */
  function EqualsIgnoreCase(a: string, b: string): (r: bool)
    ensures r <==> |a| == |b| && forall i :: 0 <= i < |a| ==> LowerChar(a[i]) == LowerChar(b[i])
  {
    |a| == |b| && forall i :: 0 <= i < |a| ==> CharEqualsIgnoreCase(a[i], b[i])
  }

  lemma CharEqualsIgnoreCaseIsLowerEquality(c: char, d: char)
    ensures CharEqualsIgnoreCase(c, d) <==> LowerChar(c) == LowerChar(d)
  {
  }

  /** Comparing ignoring case is the same as comparing the lower-cased strings. */
  lemma EqualsIgnoreCaseIsLowerEquality(a: string, b: string)
    ensures EqualsIgnoreCase(a, b) <==> ToLower(a) == ToLower(b)
  {
    if EqualsIgnoreCase(a, b) {
      forall i | 0 <= i < |a|
        ensures ToLower(a)[i] == ToLower(b)[i]
      {
        CharEqualsIgnoreCaseIsLowerEquality(a[i], b[i]);
      }
    }
    if ToLower(a) == ToLower(b) {
      forall i | 0 <= i < |a|
        ensures CharEqualsIgnoreCase(a[i], b[i])
      {
        assert ToLower(a)[i] == ToLower(b)[i];
        CharEqualsIgnoreCaseIsLowerEquality(a[i], b[i]);
      }
    }
  }

  /** Lower-casing never turns a pad into a non-pad or back. */
  lemma LowerKeepsPads(k: Pad, c: char)
    ensures IsPad(k, LowerChar(c)) <==> IsPad(k, c)
  {
  }

  lemma {:induction false} TrimStartOfPadPrefix(k: Pad, p: string, s: string)
    requires AllPad(k, p)
    ensures TrimStart(k, p + s) == TrimStart(k, s)
  {
    if p != [] {
      var ps := p + s;
      assert ps[0] == p[0] && IsPad(k, p[0]);
      assert TrimStart(k, ps) == TrimStart(k, ps[1..]);
      assert ps[1..] == p[1..] + s;
      assert AllPad(k, p[1..]);
      TrimStartOfPadPrefix(k, p[1..], s);
    } else {
      assert p + s == s;
    }
  }

  lemma {:induction false} TrimEndOfPadSuffix(k: Pad, s: string, p: string)
    requires AllPad(k, p)
    ensures TrimEnd(k, s + p) == TrimEnd(k, s)
  {
    if p != [] {
      var sp := s + p;
      assert sp[|sp| - 1] == p[|p| - 1] && IsPad(k, p[|p| - 1]);
      assert TrimEnd(k, sp) == TrimEnd(k, sp[..|sp| - 1]);
      assert sp[..|sp| - 1] == s + p[..|p| - 1];
      assert AllPad(k, p[..|p| - 1]);
      TrimEndOfPadSuffix(k, s, p[..|p| - 1]);
    } else {
      assert s + p == s;
    }
  }

  /** Trimming the start of `s + t` stops inside `s` unless `s` is all pad. */
  lemma {:induction false} TrimStartAppend(k: Pad, s: string, t: string)
    ensures TrimStart(k, s + t) == if AllPad(k, s) then TrimStart(k, t) else TrimStart(k, s) + t
  {
    if s == [] {
      assert s + t == t;
    } else if IsPad(k, s[0]) {
      assert TrimStart(k, s + t) == TrimStart(k, s[1..] + t) by {
        assert (s + t)[0] == s[0];
        assert (s + t)[1..] == s[1..] + t;
      }
      assert AllPad(k, s) <==> AllPad(k, s[1..]) by {
        assert forall i :: 0 < i < |s| ==> s[i] == s[1..][i - 1];
      }
      TrimStartAppend(k, s[1..], t);
    } else {
      assert (s + t)[0] == s[0];
    }
  }

  /** Trimming an all-pad string leaves nothing. */
  lemma TrimOfAllPad(k: Pad, s: string)
    requires AllPad(k, s)
    ensures TrimStart(k, s) == [] && Trim(k, s) == []
  {
    TrimStartShape(k, s);
  }

  /** Padding at either end never changes the trimmed string. */
  lemma TrimIgnoresPadding(k: Pad, p1: string, s: string, p2: string)
    requires AllPad(k, p1) && AllPad(k, p2)
    ensures Trim(k, p1 + s + p2) == Trim(k, s)
  {
    assert p1 + s + p2 == p1 + (s + p2);
    TrimStartOfPadPrefix(k, p1, s + p2);
    TrimStartAppend(k, s, p2);
    if AllPad(k, s) {
      TrimOfAllPad(k, p2);
      TrimOfAllPad(k, s);
    } else {
      TrimEndOfPadSuffix(k, TrimStart(k, s), p2);
    }
  }

  lemma {:induction false} TrimStartCommutesWithLower(k: Pad, s: string)
    ensures TrimStart(k, ToLower(s)) == ToLower(TrimStart(k, s))
  {
    if s != [] {
      LowerKeepsPads(k, s[0]);
      assert ToLower(s)[1..] == ToLower(s[1..]);
      TrimStartCommutesWithLower(k, s[1..]);
    }
  }

  lemma {:induction false} TrimEndCommutesWithLower(k: Pad, s: string)
    ensures TrimEnd(k, ToLower(s)) == ToLower(TrimEnd(k, s))
  {
    if s != [] {
      LowerKeepsPads(k, s[|s| - 1]);
      assert ToLower(s)[..|s| - 1] == ToLower(s[..|s| - 1]);
      TrimEndCommutesWithLower(k, s[..|s| - 1]);
    }
  }

  /** Trimming and lower-casing can be done in either order. */
  lemma TrimCommutesWithLower(k: Pad, s: string)
    ensures Trim(k, ToLower(s)) == ToLower(Trim(k, s))
  {
    TrimStartCommutesWithLower(k, s);
    TrimEndCommutesWithLower(k, TrimStart(k, s));
  }
}
