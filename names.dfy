/**
  The attribute-name predicates of utils/utils.py: `isdunder` (a
  `__double_underscore__` name) and `issunder` (a `_single_underscore_` name),
  both written with Python slices, which clamp out-of-range bounds.
*/
module Names {

  /** A Python slice bound: negative counts from the end, then clamped to `[0, n]`. */
  function Bound(i: int, n: nat): (b: nat)
    ensures b <= n
  {
    var j := if i < 0 then i + n else i;
    if j < 0 then 0 else if j > n then n else j
  }

  /** `s[start:end]` with Python's clamping: never fails, empty when the bounds cross. */
  function Slice(s: string, start: int, end: int): (r: string)
    ensures |r| <= |s|
  {
    var a, b := Bound(start, |s|), Bound(end, |s|);
    if a < b then s[a..b] else []
  }

  /** `name[:2] == name[-2:] == '__' and name[2:3] != '_' and name[-3:-2] != '_' and len(name) > 4` */
  predicate IsDunder(name: string)
  {
    && Slice(name, 0, 2) == "__" && Slice(name, -2, |name|) == "__"
    && Slice(name, 2, 3) != "_" && Slice(name, -3, -2) != "_"
    && |name| > 4
  }

  /** `name[:1] == name[-1:] == '_' and name[1:2] != '_' and name[-2:-1] != '_' and len(name) > 2` */
  predicate IsSunder(name: string)
  {
    && Slice(name, 0, 1) == "_" && Slice(name, -1, |name|) == "_"
    && Slice(name, 1, 2) != "_" && Slice(name, -2, -1) != "_"
    && |name| > 2
  }

  /**
    A dunder name is longer than 4, starts and ends with two underscores, and
    the character after the leading pair and the one before the trailing pair
    are not underscores.
  */
  lemma DunderShape(name: string)
    ensures IsDunder(name) <==>
      && |name| > 4
      && name[0] == '_' && name[1] == '_' && name[|name| - 2] == '_' && name[|name| - 1] == '_'
      && name[2] != '_' && name[|name| - 3] != '_'
  {
    if |name| > 4 {
      assert Slice(name, 0, 2) == name[..2];
      assert Slice(name, -2, |name|) == name[|name| - 2..];
      assert Slice(name, 2, 3) == [name[2]];
      assert Slice(name, -3, -2) == [name[|name| - 3]];
    }
  }

  /**
    A sunder name is longer than 2, starts and ends with one underscore, and
    its second and second-to-last characters are not underscores.
  */
  lemma SunderShape(name: string)
    ensures IsSunder(name) <==>
      && |name| > 2
      && name[0] == '_' && name[|name| - 1] == '_'
      && name[1] != '_' && name[|name| - 2] != '_'
  {
    if |name| > 2 {
      assert Slice(name, 0, 1) == [name[0]];
      assert Slice(name, -1, |name|) == [name[|name| - 1]];
      assert Slice(name, 1, 2) == [name[1]];
      assert Slice(name, -2, -1) == [name[|name| - 2]];
    }
  }

  /** No name is both: a dunder name has `_` second, which a sunder name forbids. */
  lemma DunderNotSunder(name: string)
    ensures !(IsDunder(name) && IsSunder(name))
  {
    DunderShape(name);
    SunderShape(name);
  }
}
