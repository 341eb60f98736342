/**
  The descriptor label formatter shared by both scripts (main.py:113-114 and
  mapit.py:48-49 are the same one-liner): a regular-expression substitution
  that puts a space at every lowercase-to-uppercase boundary, followed by
  Python's str.title().  Characters are ASCII: the regex classes [a-z] and
  [A-Z] are ASCII-only, and title-casing is modelled for ASCII letters.
*/
module DescriptorFormat {

  predicate IsLower(c: char) { 'a' <= c <= 'z' }

  predicate IsUpper(c: char) { 'A' <= c <= 'Z' }

  /** A "cased" character in the sense of str.title(): an ASCII letter. */
  predicate IsCased(c: char) { IsLower(c) || IsUpper(c) }

  function ToLower(c: char): (r: char)
    ensures IsCased(r) == IsCased(c) && !IsUpper(r)
    ensures IsLower(c) ==> r == c
  {
    if IsUpper(c) then (c as int + 32) as char else c
  }

  function ToUpper(c: char): (r: char)
    ensures IsCased(r) == IsCased(c) && !IsLower(r)
    ensures IsUpper(c) ==> r == c
  {
    if IsLower(c) then (c as int - 32) as char else c
  }

  lemma CaseMapsAbsorb(c: char)
    ensures ToLower(ToLower(c)) == ToLower(c) && ToLower(ToUpper(c)) == ToLower(c)
    ensures ToUpper(ToUpper(c)) == ToUpper(c) && ToUpper(ToLower(c)) == ToUpper(c)
  {
  }

  // ---------------------------------------------------------------------------
  // Step 1: re.sub(r"(?<=[a-z])(?=[A-Z])", " ", s)
  // ---------------------------------------------------------------------------

  /** Position i (between s[i-1] and s[i]) is matched by the zero-width pattern. */
  predicate BoundaryAt(s: string, i: int) {
    0 < i < |s| && IsLower(s[i - 1]) && IsUpper(s[i])
  }

  /** The number of matched positions strictly below k. */
  function BoundariesBefore(s: string, k: nat): nat
    requires k <= |s|
  {
    if k == 0 then 0 else BoundariesBefore(s, k - 1) + (if BoundaryAt(s, k - 1) then 1 else 0)
  }

  function CountBoundaries(s: string): nat {
    BoundariesBefore(s, |s|)
  }

  predicate NoBoundary(s: string) {
    forall i :: 0 < i < |s| ==> !BoundaryAt(s, i)
  }

  /**
    The substitution step: one space at each matched position, so at most one
    space per character.
  */
  function SplitWords(s: string): (r: string)
    ensures |s| <= |r| <= 2 * |s|
  {
    if |s| <= 1 then s
    else [s[0]] + (if BoundaryAt(s, 1) then " " else "") + SplitWords(s[1..])
  }

  /** The substitution adds one character per match and leaves no lowercase-to-uppercase adjacency. */
  lemma {:induction false} SplitWordsShape(s: string)
    ensures |SplitWords(s)| == |s| + CountBoundaries(s)
    ensures |s| > 0 ==> SplitWords(s)[0] == s[0]
    ensures NoBoundary(SplitWords(s))
  {
    if |s| == 1 {
      assert BoundariesBefore(s, 1) == BoundariesBefore(s, 0);
    } else if |s| > 1 {
      SplitWordsShape(s[1..]);
      BoundariesShift(s, |s|);
      NoBoundaryPrepend(s[0], if BoundaryAt(s, 1) then " " else "", SplitWords(s[1..]));
    }
  }

  /** The substitution works piecewise: a match at the junction of two pieces adds one space there. */
  lemma {:induction false} SplitWordsAppend(a: string, b: string)
    requires |a| > 0 && |b| > 0
    ensures SplitWords(a + b)
            == SplitWords(a) + (if IsLower(a[|a| - 1]) && IsUpper(b[0]) then " " else "") + SplitWords(b)
  {
    if |a| == 1 {
      assert (a + b)[1..] == b;
      assert SplitWords(a) == a;
      assert BoundaryAt(a + b, 1) == (IsLower(a[0]) && IsUpper(b[0]));
    } else {
      var t := a[1..];
      assert (a + b)[1..] == t + b;
      assert BoundaryAt(a + b, 1) == BoundaryAt(a, 1);
      assert a[|a| - 1] == t[|t| - 1];
      SplitWordsAppend(t, b);
      var space := if BoundaryAt(a, 1) then " " else "";
      var junction := if IsLower(a[|a| - 1]) && IsUpper(b[0]) then " " else "";
      calc {
        SplitWords(a + b);
        [a[0]] + space + SplitWords(t + b);
        [a[0]] + space + (SplitWords(t) + junction + SplitWords(b));
        { Regroup([a[0]] + space, SplitWords(t), junction, SplitWords(b)); }
        ([a[0]] + space + SplitWords(t)) + junction + SplitWords(b);
        SplitWords(a) + junction + SplitWords(b);
      }
    }
  }

  lemma Regroup(p: string, q: string, r: string, w: string)
    ensures p + (q + r + w) == (p + q) + r + w
  {
  }

  /** Prefixing a character (and possibly a separating space) keeps a boundary-free text boundary-free. */
  lemma NoBoundaryPrepend(c: char, space: string, rest: string)
    requires NoBoundary(rest) && |rest| > 0
    requires space == " " || (space == "" && !(IsLower(c) && IsUpper(rest[0])))
    ensures NoBoundary([c] + space + rest)
  {
    var r := [c] + space + rest;
    forall i | 0 < i < |r| ensures !BoundaryAt(r, i) {
      if i > |space| + 1 {
        assert r[i - 1] == rest[i - 1 - |space| - 1] && r[i] == rest[i - |space| - 1];
        assert !BoundaryAt(rest, i - |space| - 1);
      }
    }
  }

  /** Counting boundaries of s equals counting those of s[1..], plus the one at position 1. */
  lemma {:induction false} BoundariesShift(s: string, k: nat)
    requires 1 <= k <= |s|
    ensures BoundariesBefore(s, k)
            == BoundariesBefore(s[1..], k - 1) + (if k >= 2 && BoundaryAt(s, 1) then 1 else 0)
  {
    if k > 1 {
      BoundariesShift(s, k - 1);
      assert BoundaryAt(s, k - 1) == (k - 1 > 1 && BoundaryAt(s[1..], k - 2)) || (k - 1 == 1 && BoundaryAt(s, 1));
    }
  }

  /**
    The substitution places every character of s in order, each shifted right by
    the number of spaces inserted before it, and puts a space in front of every
    character that starts a lowercase-to-uppercase boundary.  Together with the
    length in SplitWordsShape this determines the result completely.
  */
  lemma SplitWordsPlacement(s: string)
    ensures forall i :: 0 <= i < |s| ==> CharPlaced(s, SplitWords(s), i)
  {
    forall i | 0 <= i < |s| ensures CharPlaced(s, SplitWords(s), i) {
      PlacementAt(s, i);
    }
  }

  /**
    Character i of s sits in r after the spaces inserted before it, and is
    preceded by a space when it starts a lowercase-to-uppercase boundary.
  */
  ghost predicate CharPlaced(s: string, r: string, i: nat)
    requires i < |s|
  {
    var at := i + BoundariesBefore(s, i + 1);
    && at < |r|
    && r[at] == s[i]
    && (BoundaryAt(s, i) ==> 0 < at && r[at - 1] == ' ')
  }

  /** SplitWordsPlacement for one index, by induction on the index. */
  lemma {:induction false} PlacementAt(s: string, i: nat)
    requires i < |s|
    ensures CharPlaced(s, SplitWords(s), i)
  {
    assert BoundariesBefore(s, 1) == 0;
    if i > 0 {
      var t := s[1..];
      var space := if BoundaryAt(s, 1) then " " else "";
      var rest := SplitWords(t);
      var r := SplitWords(s);
      assert r == [s[0]] + space + rest;
      PlacementAt(t, i - 1);
      BoundariesShift(s, i + 1);
      var j := (i - 1) + BoundariesBefore(t, i);
      assert i + BoundariesBefore(s, i + 1) == 1 + |space| + j;
      assert r[1 + |space| + j] == rest[j];
      assert t[i - 1] == s[i];
      if BoundaryAt(s, i) && i > 1 {
        assert BoundaryAt(t, i - 1);
        assert r[1 + |space| + j - 1] == rest[j - 1];
      }
    }
  }

  /** Where the pattern matches nowhere, the substitution changes nothing. */
  lemma {:induction false} SplitWordsIdentity(s: string)
    requires NoBoundary(s)
    ensures SplitWords(s) == s
  {
    if |s| > 1 {
      assert NoBoundary(s[1..]) by {
        forall i | 0 < i < |s| - 1 ensures !BoundaryAt(s[1..], i) {
          assert !BoundaryAt(s, i + 1);
        }
      }
      SplitWordsIdentity(s[1..]);
      assert !BoundaryAt(s, 1);
      assert s == [s[0]] + s[1..];
    }
  }

  // ---------------------------------------------------------------------------
  // Step 2: str.title()
  // ---------------------------------------------------------------------------

  /** One character of str.title(): lowercase after a cased character, titlecase otherwise. */
  function TitleChar(previousIsCased: bool, c: char): char {
    if previousIsCased then ToLower(c) else ToUpper(c)
  }

  /** The left-to-right scan of str.title(), carrying whether the previous input character was cased. */
  function TitleFrom(t: string, previousIsCased: bool): (r: string)
    ensures |r| == |t|
    ensures forall i :: 0 <= i < |t| ==>
      r[i] == TitleChar(if i == 0 then previousIsCased else IsCased(t[i - 1]), t[i])
  {
    if t == [] then []
    else [TitleChar(previousIsCased, t[0])] + TitleFrom(t[1..], IsCased(t[0]))
  }

  /**
    str.title() on ASCII text: every letter that follows a letter is lowercased,
    every other letter is uppercased, other characters are unchanged.
  */
  function Title(t: string): (r: string)
    ensures |r| == |t|
    ensures forall i :: 0 <= i < |t| ==> r[i] == TitleChar(i > 0 && IsCased(t[i - 1]), t[i])
  {
    TitleFrom(t, false)
  }

  /** Title-cased text has no lowercase letter directly followed by an uppercase one. */
  lemma TitleHasNoBoundary(t: string)
    ensures NoBoundary(Title(t))
  {
    var r := Title(t);
    forall i | 0 < i < |r| ensures !BoundaryAt(r, i) {
      assert r[i - 1] == TitleChar(i - 1 > 0 && IsCased(t[i - 2]), t[i - 1]);
      if IsLower(r[i - 1]) {
        assert IsCased(t[i - 1]);
      }
    }
  }

  lemma TitleIdempotent(t: string)
    ensures Title(Title(t)) == Title(t)
  {
    var r := Title(t);
    forall i | 0 <= i < |t| ensures Title(r)[i] == r[i] {
      CaseMapsAbsorb(t[i]);
      if i > 0 {
        assert r[i - 1] == TitleChar(i - 1 > 0 && IsCased(t[i - 2]), t[i - 1]);
        assert IsCased(r[i - 1]) == IsCased(t[i - 1]);
      }
    }
  }

  // ---------------------------------------------------------------------------
  // format_descriptor_id
  // ---------------------------------------------------------------------------

  function Format(descriptorId: string): (formatted: string)
    ensures NoBoundary(formatted)
  {
    TitleHasNoBoundary(SplitWords(descriptorId));
    Title(SplitWords(descriptorId))
  }

  /**
    The label is one character longer per lowercase-to-uppercase boundary of the
    identifier, and every character of the identifier reappears, case-mapped by
    title-casing, at its position shifted by the spaces inserted before it.
  */
  lemma FormatShape(s: string)
    ensures |Format(s)| == |s| + CountBoundaries(s)
    ensures forall i :: 0 <= i < |s| ==> LetterPlaced(s, Format(s), i)
  {
    SplitWordsShape(s);
    SplitWordsPlacement(s);
    var w := SplitWords(s);
    var title := Title(w);
    forall i | 0 <= i < |s| ensures LetterPlaced(s, title, i) {
      assert CharPlaced(s, w, i);
      var at := i + BoundariesBefore(s, i + 1);
      assert title[at] == TitleChar(at > 0 && IsCased(w[at - 1]), w[at]);
      CaseMapsAbsorb(s[i]);
      if BoundaryAt(s, i) {
        assert title[at - 1] == TitleChar(at - 1 > 0 && IsCased(w[at - 2]), w[at - 1]);
      }
    }
  }

  /**
    Character i of s reappears in the label, up to case, after the spaces
    inserted before it, and is preceded by a space when it starts a
    lowercase-to-uppercase boundary.
  */
  ghost predicate LetterPlaced(s: string, text: string, i: nat)
    requires i < |s|
  {
    var at := i + BoundariesBefore(s, i + 1);
    && at < |text|
    && ToLower(text[at]) == ToLower(s[i])
    && (BoundaryAt(s, i) ==> 0 < at && text[at - 1] == ' ')
  }

  /** Formatting an already formatted label changes nothing. */
  lemma FormatIdempotent(s: string)
    ensures Format(Format(s)) == Format(s)
  {
    SplitWordsIdentity(Format(s));
    TitleIdempotent(SplitWords(s));
  }

  /** A string is left unchanged by the formatter exactly when it is already title-cased. */
  lemma FormatFixedPoints(s: string)
    ensures Format(s) == s <==> Title(s) == s
  {
    if Format(s) == s {
      TitleIdempotent(SplitWords(s));
    }
    if Title(s) == s {
      TitleHasNoBoundary(s);
      SplitWordsIdentity(s);
    }
  }

  predicate AllLower(s: string) {
    forall i :: 0 <= i < |s| ==> IsLower(s[i])
  }

  /**
    A two-word camel-case identifier (a lowercase word followed by a capitalised
    one) becomes the two words, capitalised and separated by one space; for
    instance "hornetHive" becomes "Hornet Hive" and "enemyPath" "Enemy Path".
  */
  lemma FormatCamelPair(first: string, second: string)
    requires |first| > 0 && AllLower(first)
    requires |second| > 0 && IsUpper(second[0]) && AllLower(second[1..])
    ensures Format(first + second) == [ToUpper(first[0])] + first[1..] + " " + second
  {
    assert NoBoundary(first);
    assert NoBoundary(second) by {
      forall i | 0 < i < |second| ensures !BoundaryAt(second, i) {
        assert IsLower(second[1..][i - 1]);
      }
    }
    SplitWordsIdentity(first);
    SplitWordsIdentity(second);
    SplitWordsAppend(first, second);
    TitleOfSpacedPair(first, second);
  }

  lemma TitleOfSpacedPair(first: string, second: string)
    requires |first| > 0 && AllLower(first)
    requires |second| > 0 && IsUpper(second[0]) && AllLower(second[1..])
    ensures Title(first + " " + second) == [ToUpper(first[0])] + first[1..] + " " + second
  {
    var spaced := first + " " + second;
    var expected := [ToUpper(first[0])] + first[1..] + " " + second;
    var title := Title(spaced);
    forall i | 0 <= i < |spaced| ensures title[i] == expected[i] {
      assert title[i] == TitleChar(i > 0 && IsCased(spaced[i - 1]), spaced[i]);
      if i == 0 {
        assert spaced[i] == first[0] && expected[i] == ToUpper(first[0]);
      } else if i < |first| {
        assert spaced[i] == first[i] && expected[i] == first[i];
        assert spaced[i - 1] == first[i - 1] && IsCased(spaced[i - 1]);
      } else if i == |first| {
        assert spaced[i] == ' ' && expected[i] == ' ';
      } else if i == |first| + 1 {
        assert spaced[i] == second[0] && expected[i] == second[0];
        assert spaced[i - 1] == ' ';
      } else {
        assert spaced[i] == second[1..][i - |first| - 2] && expected[i] == spaced[i];
        assert spaced[i - 1] == second[i - |first| - 2] && IsCased(spaced[i - 1]);
      }
    }
  }
}
