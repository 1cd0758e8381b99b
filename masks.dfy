/**
  Mask strings of the `Bits` codec (utils.py): removal of the separator, the
  maximal runs of identical characters that `itertools.groupby` yields, the
  same runs located by their distance from the right end of the mask (bit
  positions), and the pieces `re.split(rf'({c}+)', mask)` returns.
*/
module Masks {
  import opened Wrappers

  // ---------------------------------------------------------------------------
  // Digits used as markers

  predicate IsDigit(c: char)
  {
    '0' <= c <= '9'
  }

  /** The marker character of digit d. */
  function Digit(d: nat): (c: char)
    requires d < 10
    ensures IsDigit(c)
  {
    ('0' as int + d) as char
  }

  /** `int(c)` for a marker. */
  function DigitValue(c: char): (d: nat)
    requires IsDigit(c)
    ensures d < 10 && Digit(d) == c
  {
    c as int - '0' as int
  }

  lemma {:induction false} DigitInjective(d: nat, e: nat)
    requires d < 10 && e < 10
    ensures Digit(d) == Digit(e) <==> d == e
  {
  }

  /** `max(int(m) for m in mask if m.isdecimal())`, None where `max` raises on no digits. */
  function MaxDigit(s: string): (r: Option<nat>)
    ensures r.None? <==> forall i :: 0 <= i < |s| ==> !IsDigit(s[i])
    ensures r.Some? ==> r.value < 10 && Digit(r.value) in s
    ensures r.Some? ==> forall i :: 0 <= i < |s| && IsDigit(s[i]) ==> DigitValue(s[i]) <= r.value
  {
    if s == [] then None
    else
      var rest := MaxDigit(s[1..]);
      if !IsDigit(s[0]) then rest
      else if rest.Some? && rest.value >= DigitValue(s[0]) then rest
      else Some(DigitValue(s[0]))
  }

  // ---------------------------------------------------------------------------
  // Separator removal: `''.join(mask.split(sep))` when `sep` is truthy

  /** `mask` with the separator removed; an empty separator removes nothing. */
  function RemoveSep(mask: string, sep: string): (r: string)
    ensures |r| <= |mask|
    ensures sep == [] ==> r == mask
    ensures |sep| == 1 ==> r == Without(mask, sep[0])
  {
    if sep == [] then mask else Strip(mask, sep)
  }

  /** Drops the leftmost non-overlapping occurrences of `sep`, as `str.split` finds them. */
  function Strip(s: string, sep: string): (r: string)
    requires sep != []
    ensures |r| <= |s|
    ensures |sep| == 1 ==> r == Without(s, sep[0])
    decreases |s|
  {
    if |s| < |sep| then s
    else if s[..|sep|] == sep then Strip(s[|sep|..], sep)
    else [s[0]] + Strip(s[1..], sep)
  }

  /** The characters of s other than c, in order. */
  function Without(s: string, c: char): (r: string)
    ensures c !in r
    ensures forall x :: x != c ==> multiset(r)[x] == multiset(s)[x]
  {
    if s == [] then []
    else
      assert s == [s[0]] + s[1..];
      if s[0] == c then Without(s[1..], c) else [s[0]] + Without(s[1..], c)
  }

  // ---------------------------------------------------------------------------
  // `itertools.groupby`: maximal runs of identical characters

  datatype Group = Group(marker: char, size: nat)

  /** Length of the run of `s[0]` that starts s. */
  function LeadRun(s: string): (k: nat)
    requires s != []
    ensures 1 <= k <= |s|
  {
    if |s| == 1 || s[1] != s[0] then 1 else 1 + LeadRun(s[1..])
  }

  /** The leading run is made of `s[0]` and is maximal. */
  lemma {:induction false} LeadRunShape(s: string)
    requires s != []
    ensures var k := LeadRun(s);
      && (forall j :: 0 <= j < k ==> s[j] == s[0])
      && (k < |s| ==> s[k] != s[0])
    decreases |s|
  {
    if |s| > 1 && s[1] == s[0] {
      LeadRunShape(s[1..]);
    }
  }

  function Expand(g: Group): string
  {
    seq(g.size, _ => g.marker)
  }

  function Concat(gs: seq<Group>): string
  {
    if gs == [] then [] else Expand(gs[0]) + Concat(gs[1..])
  }

  function GroupBy(s: string): (gs: seq<Group>)
    decreases |s|
  {
    if s == [] then []
    else
      var k := LeadRun(s);
      [Group(s[0], k)] + GroupBy(s[k..])
  }

  /** The groups spell s again. */
  lemma {:induction false} GroupByConcat(s: string)
    ensures Concat(GroupBy(s)) == s
    decreases |s|
  {
    if s != [] {
      var k := LeadRun(s);
      var t := s[k..];
      GroupByConcat(t);
      ExpandLead(s);
      ConcatCons(Group(s[0], k), GroupBy(t));
      SplitAt(s, k);
    }
  }

  lemma SplitAt(s: string, k: nat)
    requires k <= |s|
    ensures s == s[..k] + s[k..]
  {
  }

  lemma ConcatCons(g: Group, gs: seq<Group>)
    ensures Concat([g] + gs) == Expand(g) + Concat(gs)
  {
    assert ([g] + gs)[1..] == gs;
  }

  /** The first group spells the leading run. */
  lemma ExpandLead(s: string)
    requires s != []
    ensures Expand(Group(s[0], LeadRun(s))) == s[..LeadRun(s)]
  {
    LeadRunShape(s);
  }

  /** No group is empty and neighbouring groups carry different characters. */
  lemma {:induction false} GroupByShape(s: string)
    ensures var gs := GroupBy(s);
      && (forall k :: 0 <= k < |gs| ==> gs[k].size >= 1)
      && (forall k :: 0 <= k < |gs| - 1 ==> gs[k].marker != gs[k + 1].marker)
  {
    GroupsAreRuns(s);
    var gs, rs := GroupBy(s), Runs(s);
    forall k | 0 <= k < |gs| ensures gs[k].size >= 1 {
      RunsTile(s, k);
    }
    forall k | 0 <= k < |gs| - 1 ensures gs[k].marker != gs[k + 1].marker {
      RunsTile(s, k + 1);
    }
  }

  // ---------------------------------------------------------------------------
  // Runs located by bit position

  /** A run of `width` copies of `marker` with `pos` mask characters to its right. */
  datatype Run = Run(marker: char, width: nat, pos: nat)

  /** The runs of s, left to right, each with the count of characters to its right. */
  function Runs(s: string): (rs: seq<Run>)
    decreases |s|
  {
    if s == [] then []
    else
      var k := LeadRun(s);
      [Run(s[0], k, |s| - k)] + Runs(s[k..])
  }

  /** `groupby` and `Runs` see the same runs: same markers, group sizes equal to the widths. */
  lemma {:induction false} GroupsAreRuns(s: string)
    ensures |GroupBy(s)| == |Runs(s)|
    ensures forall k :: 0 <= k < |Runs(s)| ==>
      GroupBy(s)[k] == Group(Runs(s)[k].marker, Runs(s)[k].width)
    decreases |s|
  {
    if s != [] {
      var k := LeadRun(s);
      GroupsAreRuns(s[k..]);
      var gs, rs := GroupBy(s), Runs(s);
      assert gs[1..] == GroupBy(s[k..]);
      assert rs[1..] == Runs(s[k..]);
      forall j | 0 <= j < |rs| ensures gs[j] == Group(rs[j].marker, rs[j].width) {
        if j > 0 {
          assert gs[j] == gs[1..][j - 1] && rs[j] == rs[1..][j - 1];
        }
      }
    }
  }

  /** Runs of a non-empty string: its leading run, then the runs of the rest. */
  lemma {:induction false} RunsCons(s: string)
    requires s != []
    ensures var k := LeadRun(s); Runs(s) == [Run(s[0], k, |s| - k)] + Runs(s[k..])
  {
  }

  /** Each run is made of its marker, ends `pos` characters from the right, and the runs tile s. */
  lemma {:induction false} RunsTile(s: string, j: nat)
    requires j < |Runs(s)|
    ensures var r := Runs(s)[j];
      && r.width >= 1 && r.pos + r.width <= |s|
      && (forall t :: |s| - r.pos - r.width <= t < |s| - r.pos ==> s[t] == r.marker)
      && (j == 0 ==> r.pos + r.width == |s|)
      && (j == |Runs(s)| - 1 ==> r.pos == 0)
      && (j > 0 ==> Runs(s)[j - 1].pos == r.pos + r.width && Runs(s)[j - 1].marker != r.marker)
    decreases |s|
  {
    var k := LeadRun(s);
    LeadRunShape(s);
    RunsCons(s);
    var rest := Runs(s[k..]);
    if j > 0 {
      RunsTile(s[k..], j - 1);
      if j > 1 {
        RunsTile(s[k..], j - 2);
      } else {
        assert Runs(s)[0] == Run(s[0], k, |s| - k);
        RunsTile(s[k..], 0);
        var t := |s| - rest[0].pos - rest[0].width;
        assert t == k;
        assert s[k] == rest[0].marker;
      }
    }
    if j == |Runs(s)| - 1 && j == 0 {
      assert GroupBy(s[k..]) == [];
      assert s[k..] == [];
    }
  }

  /** The first run whose marker is c. */
  function RunOf(rs: seq<Run>, c: char): (r: Option<Run>)
    ensures r.Some? ==> r.value in rs && r.value.marker == c
    ensures r.None? <==> forall k :: 0 <= k < |rs| ==> rs[k].marker != c
  {
    if rs == [] then None
    else if rs[0].marker == c then Some(rs[0])
    else RunOf(rs[1..], c)
  }

  /** Two distinct runs carry marker c. */
  predicate Duplicated(rs: seq<Run>, c: char)
  {
    exists i, j :: 0 <= i < j < |rs| && rs[i].marker == c && rs[j].marker == c
  }

  lemma {:induction false} RunOfSnoc(rs: seq<Run>, r: Run, c: char)
    ensures RunOf(rs + [r], c) == if RunOf(rs, c).Some? then RunOf(rs, c)
                                  else if r.marker == c then Some(r) else None
  {
    if rs != [] {
      assert (rs + [r])[1..] == rs[1..] + [r];
      RunOfSnoc(rs[1..], r, c);
    }
  }

  lemma {:induction false} DuplicatedSnoc(rs: seq<Run>, r: Run, c: char)
    ensures Duplicated(rs + [r], c) <==> Duplicated(rs, c) || (r.marker == c && RunOf(rs, c).Some?)
  {
    var t := rs + [r];
    if Duplicated(t, c) && !Duplicated(rs, c) {
      var i, j :| 0 <= i < j < |t| && t[i].marker == c && t[j].marker == c;
      assert j == |rs|;
      assert rs[i].marker == c;
    }
    if r.marker == c && RunOf(rs, c).Some? {
      var i :| 0 <= i < |rs| && rs[i].marker == c;
      assert t[i].marker == c && t[|rs|].marker == c;
    }
    if Duplicated(rs, c) {
      var i, j :| 0 <= i < j < |rs| && rs[i].marker == c && rs[j].marker == c;
      assert t[i] == rs[i] && t[j] == rs[j];
    }
  }

  lemma {:induction false} DuplicatedCons(r: Run, rs: seq<Run>, c: char)
    ensures Duplicated([r] + rs, c) <==> Duplicated(rs, c) || (r.marker == c && RunOf(rs, c).Some?)
  {
    var t := [r] + rs;
    if Duplicated(t, c) && !Duplicated(rs, c) {
      var i, j :| 0 <= i < j < |t| && t[i].marker == c && t[j].marker == c;
      assert i == 0;
      assert rs[j - 1].marker == c;
    }
    if r.marker == c && RunOf(rs, c).Some? {
      var j :| 0 <= j < |rs| && rs[j].marker == c;
      assert t[0].marker == c && t[j + 1].marker == c;
    }
    if Duplicated(rs, c) {
      var i, j :| 0 <= i < j < |rs| && rs[i].marker == c && rs[j].marker == c;
      assert t[i + 1] == rs[i] && t[j + 1] == rs[j];
    }
  }

  /** A character occurs in s exactly when some run of s carries it. */
  lemma {:induction false} InRuns(s: string, c: char)
    ensures c in s <==> RunOf(Runs(s), c).Some?
    decreases |s|
  {
    if s != [] {
      var k := LeadRun(s);
      LeadRunShape(s);
      RunsCons(s);
      InRuns(s[k..], c);
      assert s == s[..k] + s[k..];
      assert c in s[..k] <==> c == s[0];
    }
  }

  // ---------------------------------------------------------------------------
  // `re.split(rf'({c}+)', s)`: text between the runs of c, interleaved with those runs

  /**
    The list `re.split` returns for a pattern that captures the runs of c:
    text pieces at even places, the runs of c it found at odd places.
  */
  function SplitRuns(s: string, c: char): (parts: seq<string>)
    ensures |parts| % 2 == 1
    decreases |s|
  {
    if s == [] then [[]]
    else if s[0] == c then
      var k := LeadRun(s);
      [[], s[..k]] + SplitRuns(s[k..], c)
    else
      var rest := SplitRuns(s[1..], c);
      [[s[0]] + rest[0]] + rest[1..]
  }

  /** The pieces of `re.split`, concatenated. */
  function Join(parts: seq<string>): string
  {
    if parts == [] then [] else parts[0] + Join(parts[1..])
  }

  /** The pieces of `re.split` spell s again. */
  lemma {:induction false} SplitRunsJoin(s: string, c: char)
    ensures Join(SplitRuns(s, c)) == s
    decreases |s|
  {
    if s != [] {
      var parts := SplitRuns(s, c);
      if s[0] == c {
        var k := LeadRun(s);
        var rest := SplitRuns(s[k..], c);
        SplitRunsJoin(s[k..], c);
        assert parts[1..] == [s[..k]] + rest;
        assert ([s[..k]] + rest)[1..] == rest;
        assert s == s[..k] + s[k..];
      } else {
        var rest := SplitRuns(s[1..], c);
        SplitRunsJoin(s[1..], c);
        assert parts[1..] == rest[1..];
        assert Join(rest) == rest[0] + Join(rest[1..]);
        assert s == [s[0]] + s[1..];
      }
    }
  }

  /**
    The text pieces of `re.split` (even places) hold no c, and the captured
    pieces (odd places) are non-empty runs of c.
  */
  lemma {:induction false} SplitRunsPieces(s: string, c: char, k: nat)
    requires k < |SplitRuns(s, c)|
    ensures var p := SplitRuns(s, c)[k];
      if k % 2 == 0 then c !in p else p != [] && forall t :: 0 <= t < |p| ==> p[t] == c
    decreases |s|
  {
    if s != [] {
      var parts := SplitRuns(s, c);
      if s[0] == c {
        var n := LeadRun(s);
        LeadRunShape(s);
        if k >= 2 {
          SplitRunsPieces(s[n..], c, k - 2);
          assert parts[k] == SplitRuns(s[n..], c)[k - 2];
        }
      } else {
        var rest := SplitRuns(s[1..], c);
        SplitRunsPieces(s[1..], c, k);
        if k == 0 {
          assert parts[0] == [s[0]] + rest[0];
        } else {
          assert parts[k] == rest[k];
        }
      }
    }
  }

  /** Without c, `re.split` returns the whole string; with it, at least one run. */
  lemma {:induction false} SplitRunsFree(s: string, c: char)
    ensures c !in s ==> SplitRuns(s, c) == [s]
    ensures c in s ==> |SplitRuns(s, c)| >= 3
    decreases |s|
  {
    if s != [] && s[0] != c {
      SplitRunsFree(s[1..], c);
      assert s == [s[0]] + s[1..];
    }
  }

  /** Splitting after a prefix free of c only lengthens the first piece. */
  lemma {:induction false} SplitRunsSkip(s: string, k: nat, c: char)
    requires k <= |s| && forall t :: 0 <= t < k ==> s[t] != c
    ensures var parts, later := SplitRuns(s, c), SplitRuns(s[k..], c);
      |parts| == |later| && parts[1..] == later[1..] && parts[0] == s[..k] + later[0]
    decreases k
  {
    if k == 0 {
      assert s[0..] == s;
    } else {
      SplitRunsSkip(s[1..], k - 1, c);
      assert s[1..][k - 1..] == s[k..];
      assert s[..k] == [s[0]] + s[1..][..k - 1];
    }
  }

  /** Two runs marked c include a first one. */
  lemma {:induction false} DuplicatedHasRun(rs: seq<Run>, c: char)
    ensures Duplicated(rs, c) ==> RunOf(rs, c).Some?
  {
    if Duplicated(rs, c) {
      var i, j :| 0 <= i < j < |rs| && rs[i].marker == c && rs[j].marker == c;
    }
  }

  /** `re.split` on a string that starts with a run of c. */
  lemma {:induction false} SplitRunsAgreeHead(s: string, c: char)
    requires s != [] && s[0] == c
    ensures var k, parts := LeadRun(s), SplitRuns(s, c);
      && |parts| >= 3
      && (|parts| > 3 <==> Duplicated(Runs(s), c))
      && |parts[1]| == k
      && (|parts| == 3 ==> |parts[2]| == |s| - k)
  {
    var k := LeadRun(s);
    var t := s[k..];
    var parts, later := SplitRuns(s, c), SplitRuns(t, c);
    var rest := Runs(t);
    assert parts == [[], s[..k]] + later;
    assert Runs(s) == [Run(c, k, |s| - k)] + rest;
    SplitRunsFree(t, c);
    InRuns(t, c);
    DuplicatedCons(Run(c, k, |s| - k), rest, c);
    DuplicatedHasRun(rest, c);
  }

  /**
    The runs `re.split` finds for a digit are the runs of `Runs`: more than one
    run of c exactly when `Runs` has two runs marked c, and the first piece
    captured and the text after it have the width and position of that run.
  */
  lemma {:induction false} SplitRunsAgree(s: string, c: char, r: Run)
    requires RunOf(Runs(s), c) == Some(r)
    ensures var parts := SplitRuns(s, c);
      && |parts| >= 3
      && (|parts| > 3 <==> Duplicated(Runs(s), c))
      && |parts[1]| == r.width
      && (|parts| == 3 ==> |parts[2]| == r.pos)
    decreases |s|
  {
    var k := LeadRun(s);
    var t := s[k..];
    var rest := Runs(t);
    var head := Run(s[0], k, |s| - k);
    assert Runs(s) == [head] + rest;
    if s[0] == c {
      assert r == head;
      SplitRunsAgreeHead(s, c);
    } else {
      assert ([head] + rest)[1..] == rest;
      assert RunOf(rest, c) == Some(r);
      LeadRunShape(s);
      SplitRunsSkip(s, k, c);
      SplitRunsAgree(t, c, r);
      DuplicatedCons(head, rest, c);
    }
  }
}
