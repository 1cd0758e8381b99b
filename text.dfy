/**
  String helpers shared by the renderers: Python's `sep.join(parts)` and
  `s.split(c)` for a one-character separator, which undo each other.
*/
module Text {

  /** `sep.join(parts)` */
  function JoinWith(sep: string, parts: seq<string>): string
  {
    if parts == [] then []
    else if |parts| == 1 then parts[0]
    else parts[0] + sep + JoinWith(sep, parts[1..])
  }

  /** `s.split(c)`: the pieces between the occurrences of c; never empty. */
  function Split(s: string, c: char): (parts: seq<string>)
    ensures |parts| >= 1
    decreases |s|
  {
    if s == [] then [[]]
    else if s[0] == c then [[]] + Split(s[1..], c)
    else
      var rest := Split(s[1..], c);
      [[s[0]] + rest[0]] + rest[1..]
  }

  /** No piece of a split contains the separator. */
  lemma {:induction false} SplitFree(s: string, c: char)
    ensures forall k :: 0 <= k < |Split(s, c)| ==> c !in Split(s, c)[k]
    decreases |s|
  {
    if s != [] {
      SplitFree(s[1..], c);
    }
  }

  /** Joining the pieces of a split with the separator gives the string back. */
  lemma {:induction false} JoinSplit(s: string, c: char)
    ensures JoinWith([c], Split(s, c)) == s
    decreases |s|
  {
    if s != [] {
      var rest := Split(s[1..], c);
      JoinSplit(s[1..], c);
      if s[0] == c {
        assert JoinWith([c], [[]] + rest) == [] + [c] + JoinWith([c], rest);
      } else {
        var parts := [[s[0]] + rest[0]] + rest[1..];
        if |rest| == 1 {
          assert parts == [[s[0]] + rest[0]];
        } else {
          assert parts[1..] == rest[1..];
          assert JoinWith([c], rest) == rest[0] + [c] + JoinWith([c], rest[1..]);
        }
      }
    }
  }

  /** Splitting a join on a separator that no piece contains gives the pieces back. */
  lemma {:induction false} SplitJoin(parts: seq<string>, c: char)
    requires parts != []
    requires forall k :: 0 <= k < |parts| ==> c !in parts[k]
    ensures Split(JoinWith([c], parts), c) == parts
    decreases |parts|
  {
    if |parts| == 1 {
      SplitPiece(parts[0], [], c);
      assert parts[0] + [] == parts[0];
      assert Split([], c) == [[]];
    } else {
      SplitJoin(parts[1..], c);
      var t := JoinWith([c], parts[1..]);
      assert JoinWith([c], parts) == parts[0] + ([c] + t);
      SplitPiece(parts[0], [c] + t, c);
      assert ([c] + t)[1..] == t;
      assert Split([c] + t, c) == [[]] + parts[1..];
      assert parts[0] + [] == parts[0];
      assert [parts[0]] + parts[1..] == parts;
    }
  }

  /** A separator-free head joins the first piece of what follows it. */
  lemma {:induction false} SplitPiece(a: string, t: string, c: char)
    requires c !in a
    ensures Split(a + t, c) == [a + Split(t, c)[0]] + Split(t, c)[1..]
    decreases |a|
  {
    if a == [] {
      var r := Split(t, c);
      assert a + t == t;
      assert a + r[0] == r[0];
      assert [r[0]] + r[1..] == r;
    } else {
      assert (a + t)[0] == a[0];
      assert (a + t)[1..] == a[1..] + t;
      SplitPiece(a[1..], t, c);
      assert [a[0]] + (a[1..] + Split(t, c)[0]) == a + Split(t, c)[0];
    }
  }

  // ---------------------------------------------------------------------------
  // str.isspace, str.strip, str.startswith, str.replace

  /**
    `c.isspace()`: the ASCII whitespace and separator controls, the Latin-1
    next-line and no-break space, and the Unicode space and line/paragraph
    separators.
  */
  predicate IsWhitespace(c: char)
  {
    || c == ' ' || c == '\t' || c == '\n' || c == '\r'
    || 0x0B <= c as int <= 0x0C || 0x1C <= c as int <= 0x1F
    || c as int == 0x85 || c as int == 0xA0 || c as int == 0x1680
    || 0x2000 <= c as int <= 0x200A || c as int == 0x2028 || c as int == 0x2029
    || c as int == 0x202F || c as int == 0x205F || c as int == 0x3000
  }

  /** `not s.strip()`: nothing but whitespace. */
  predicate Blank(s: string)
  {
    forall i :: 0 <= i < |s| ==> IsWhitespace(s[i])
  }

  /** `s.lstrip()` */
  function StripLeft(s: string): string
    decreases |s|
  {
    if s == [] || !IsWhitespace(s[0]) then s else StripLeft(s[1..])
  }

  /** `s.rstrip()` */
  function StripRight(s: string): string
    decreases |s|
  {
    if s == [] || !IsWhitespace(s[|s| - 1]) then s else StripRight(s[..|s| - 1])
  }

  /** `s.strip()` */
  function Strip(s: string): string
  {
    StripRight(StripLeft(s))
  }

  /** `lstrip` drops a blank prefix and stops at a non-whitespace character. */
  lemma StripLeftSpec(s: string)
    ensures |StripLeft(s)| <= |s| && StripLeft(s) == s[|s| - |StripLeft(s)|..]
    ensures StripLeft(s) != [] ==> !IsWhitespace(StripLeft(s)[0])
    ensures Blank(s[..|s| - |StripLeft(s)|])
  {
    StripLeftSuffix(s);
    StripLeftFirst(s);
    StripLeftBlank(s);
  }

  lemma {:induction false} StripLeftSuffix(s: string)
    ensures |StripLeft(s)| <= |s| && StripLeft(s) == s[|s| - |StripLeft(s)|..]
    decreases |s|
  {
    if s != [] && IsWhitespace(s[0]) {
      StripLeftSuffix(s[1..]);
      assert s[1..][|s| - 1 - |StripLeft(s)|..] == s[|s| - |StripLeft(s)|..];
    }
  }

  lemma {:induction false} StripLeftFirst(s: string)
    ensures StripLeft(s) != [] ==> !IsWhitespace(StripLeft(s)[0])
    decreases |s|
  {
    if s != [] && IsWhitespace(s[0]) {
      StripLeftFirst(s[1..]);
    }
  }

  lemma {:induction false} StripLeftBlank(s: string)
    ensures |StripLeft(s)| <= |s| && Blank(s[..|s| - |StripLeft(s)|])
    decreases |s|
  {
    if s != [] && IsWhitespace(s[0]) {
      var t := s[1..];
      StripLeftBlank(t);
      var k := |s| - |StripLeft(s)|;
      assert s[..k] == [s[0]] + t[..k - 1];
    } else {
      assert s[..0] == [];
    }
  }

  /** `rstrip` drops a blank suffix and stops at a non-whitespace character. */
  lemma {:induction false} StripRightSpec(s: string)
    ensures var r := StripRight(s);
      && |r| <= |s| && r == s[..|r|]
      && (r != [] ==> !IsWhitespace(r[|r| - 1]))
      && Blank(s[|r|..])
    decreases |s|
  {
    if s != [] && IsWhitespace(s[|s| - 1]) {
      var init := s[..|s| - 1];
      var r := StripRight(init);
      StripRightSpec(init);
      assert init[..|r|] == s[..|r|];
      forall i | |r| <= i < |s| ensures IsWhitespace(s[i]) {
        if i < |s| - 1 {
          assert s[i] == init[|r|..][i - |r|];
        }
      }
      assert forall i | 0 <= i < |s[|r|..]| :: s[|r|..][i] == s[|r| + i];
    }
  }

  /**
    `s.strip()` is the part of s between its leading and trailing whitespace:
    empty exactly when s is blank, otherwise without whitespace at either end.
  */
  lemma StripSpec(s: string)
    ensures var r := Strip(s);
      && (r == [] <==> Blank(s))
      && (r != [] ==> !IsWhitespace(r[0]) && !IsWhitespace(r[|r| - 1]))
      && exists a, b :: 0 <= a <= b <= |s| && r == s[a..b] && Blank(s[..a]) && Blank(s[b..])
  {
    StripSlice(s);
    var a := |s| - |StripLeft(s)|;
    var b := a + |Strip(s)|;
    assert Strip(s) == s[a..b] && Blank(s[..a]) && Blank(s[b..]);
    StripBlank(s);
    StripEnds(s);
  }

  /** The stripped string sits between two blank stretches of s. */
  lemma StripSlice(s: string)
    ensures |StripLeft(s)| <= |s|
    ensures var a := |s| - |StripLeft(s)|; var b := a + |Strip(s)|;
      b <= |s| && Strip(s) == s[a..b] && Blank(s[..a]) && Blank(s[b..])
  {
    var l := StripLeft(s);
    var r := StripRight(l);
    StripLeftSpec(s);
    StripRightSpec(l);
    var a := |s| - |l|;
    var b := a + |r|;
    assert r == l[..|r|] == s[a..b];
    assert s[b..] == l[|r|..];
  }

  /** Stripping leaves nothing exactly when s is blank. */
  lemma StripBlank(s: string)
    ensures Strip(s) == [] <==> Blank(s)
  {
    var l := StripLeft(s);
    var a := |s| - |l|;
    StripLeftSpec(s);
    StripRightSpec(l);
    if Strip(s) == [] {
      assert l[0..] == l;
      assert l == [];
      assert s[..a] == s;
    } else {
      assert Strip(s)[0] == l[0] && l[0] == s[a];
    }
  }

  /** A stripped string has no whitespace at either end. */
  lemma StripEnds(s: string)
    ensures var r := Strip(s); r != [] ==> !IsWhitespace(r[0]) && !IsWhitespace(r[|r| - 1])
  {
    var l := StripLeft(s);
    var r := StripRight(l);
    StripLeftSpec(s);
    StripRightSpec(l);
    if r != [] {
      assert r[0] == l[0];
    }
  }

  /** Strings with whitespace at the same places are stripped at the same places. */
  lemma StripAlike(s: string, t: string)
    requires |s| == |t| && forall i :: 0 <= i < |s| ==> (IsWhitespace(s[i]) <==> IsWhitespace(t[i]))
    ensures |StripLeft(s)| == |StripLeft(t)| && |Strip(s)| == |Strip(t)|
  {
    StripLeftAlike(s, t);
    var l, m := StripLeft(s), StripLeft(t);
    StripLeftSpec(s);
    StripLeftSpec(t);
    assert forall i :: 0 <= i < |l| ==> l[i] == s[|s| - |l| + i] && m[i] == t[|s| - |l| + i];
    StripRightAlike(l, m);
  }

  /** Strings with whitespace at the same places: each one's stripped form is the same slice of it. */
  lemma StripAt(s: string, t: string)
    requires |s| == |t| && forall i :: 0 <= i < |s| ==> (IsWhitespace(s[i]) <==> IsWhitespace(t[i]))
    ensures |StripLeft(s)| <= |s|
    ensures var a := |s| - |StripLeft(s)|; var b := a + |Strip(s)|;
      b <= |s| && Strip(s) == s[a..b] && Strip(t) == t[a..b]
  {
    StripAlike(s, t);
    StripSlice(s);
    StripSlice(t);
  }

  lemma {:induction false} StripLeftAlike(s: string, t: string)
    requires |s| == |t| && forall i :: 0 <= i < |s| ==> (IsWhitespace(s[i]) <==> IsWhitespace(t[i]))
    ensures |StripLeft(s)| == |StripLeft(t)|
    decreases |s|
  {
    if s != [] && IsWhitespace(s[0]) {
      StripLeftAlike(s[1..], t[1..]);
    }
  }

  lemma {:induction false} StripRightAlike(s: string, t: string)
    requires |s| == |t| && forall i :: 0 <= i < |s| ==> (IsWhitespace(s[i]) <==> IsWhitespace(t[i]))
    ensures |StripRight(s)| == |StripRight(t)|
    decreases |s|
  {
    if s != [] && IsWhitespace(s[|s| - 1]) {
      StripRightAlike(s[..|s| - 1], t[..|t| - 1]);
    }
  }

  predicate StartsWith(s: string, prefix: string)
  {
    |prefix| <= |s| && s[..|prefix|] == prefix
  }

  /** `s.replace(pat, rep)`: every occurrence of pat, scanning left to right without overlaps. */
  function Replace(s: string, pat: string, rep: string): string
    requires pat != []
    decreases |s|
  {
    if |s| < |pat| then s
    else if s[..|pat|] == pat then rep + Replace(s[|pat|..], pat, rep)
    else [s[0]] + Replace(s[1..], pat, rep)
  }

  /** Replacing one character by another maps every character on its own. */
  lemma {:induction false} ReplaceChar(s: string, a: char, b: char)
    ensures Replace(s, [a], [b]) == seq(|s|, i requires 0 <= i < |s| => if s[i] == a then b else s[i])
    decreases |s|
  {
    if s != [] {
      ReplaceChar(s[1..], a, b);
      assert s[..1] == [s[0]];
    }
  }

  /** A character in neither the string nor the replacement is not in the result. */
  lemma {:induction false} ReplaceFree(s: string, pat: string, rep: string, c: char)
    requires pat != [] && c !in s && c !in rep
    ensures c !in Replace(s, pat, rep)
    decreases |s|
  {
    if |s| >= |pat| {
      if s[..|pat|] == pat {
        assert c !in s[|pat|..];
        ReplaceFree(s[|pat|..], pat, rep, c);
      } else {
        assert c !in s[1..];
        ReplaceFree(s[1..], pat, rep, c);
      }
    }
  }

  /** Halving 4-space runs leaves a space wherever there was one, and changes nothing in a string without one. */
  lemma {:induction false} ReplaceSpaced(s: string)
    ensures ' ' !in Replace(s, "    ", "  ") ==> ' ' !in s && Replace(s, "    ", "  ") == s
    decreases |s|
  {
    if |s| >= 4 {
      if s[..4] == "    " {
        assert Replace(s, "    ", "  ")[0] == ' ';
      } else {
        ReplaceSpaced(s[1..]);
        assert s == [s[0]] + s[1..];
      }
    }
  }

  function Spaces(n: nat): (r: string)
    ensures |r| == n && forall i :: 0 <= i < n ==> r[i] == ' '
  {
    if n == 0 then [] else [' '] + Spaces(n - 1)
  }

  /** Replacing a character other than the space leaves an indentation in front alone. */
  lemma {:induction false} ReplaceAfterSpaces(n: nat, rest: string, a: char, b: char)
    requires a != ' '
    ensures Replace(Spaces(n) + rest, [a], [b]) == Spaces(n) + Replace(rest, [a], [b])
    decreases n
  {
    if n > 0 {
      var s := Spaces(n) + rest;
      assert s[..1] == [' '] && s[1..] == Spaces(n - 1) + rest;
      ReplaceAfterSpaces(n - 1, rest, a, b);
    } else {
      assert Spaces(0) + rest == rest;
    }
  }

  /** Replacing four spaces by two halves an indentation of 4k spaces and keeps the rest. */
  lemma {:induction false} IndentHalved(k: nat, rest: string)
    ensures Replace(Spaces(4 * k) + rest, Spaces(4), Spaces(2)) == Spaces(2 * k) + Replace(rest, Spaces(4), Spaces(2))
    decreases k
  {
    if k == 0 {
      assert Spaces(0) + rest == rest;
    } else {
      var s := Spaces(4 * k) + rest;
      SpacesSplit(4, 4 * (k - 1));
      assert 4 + 4 * (k - 1) == 4 * k;
      assert s == Spaces(4) + (Spaces(4 * (k - 1)) + rest);
      assert s[..4] == Spaces(4);
      assert s[4..] == Spaces(4 * (k - 1)) + rest;
      assert Replace(s, Spaces(4), Spaces(2)) == Spaces(2) + Replace(s[4..], Spaces(4), Spaces(2));
      IndentHalved(k - 1, rest);
      SpacesSplit(2, 2 * (k - 1));
      assert 2 + 2 * (k - 1) == 2 * k;
    }
  }

  lemma {:induction false} SpacesSplit(a: nat, b: nat)
    ensures Spaces(a + b) == Spaces(a) + Spaces(b)
    decreases a
  {
    if a > 0 {
      SpacesSplit(a - 1, b);
      assert a - 1 + b == a + b - 1;
    }
  }
}
