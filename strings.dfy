/**
 * The PHP string and array primitives the bridge is built from, on `seq<char>`:
 * `trim`, `explode`, `implode`, `str_replace` of one character, PHP's truthiness
 * of a string, `array_unique`, the substring test of a plain `preg_match`, and the
 * ASCII half of `mb_strtolower`.
 */
module Strings {

  // ---------------------------------------------------------------------------
  // Truthiness

  /** `if ($s)` on a string: the empty string and "0" are false, everything else true. */
  predicate Truthy(s: string) {
    s != "" && s != "0"
  }

  // ---------------------------------------------------------------------------
  // trim

  /** The characters PHP's `trim` removes by default: space, tab, LF, CR, NUL, vertical tab. */
  predicate IsTrimChar(c: char) {
    c == ' ' || c == '\t' || c == '\n' || c == '\r' || c == '\0' || c == '\U{B}'
  }

  function TrimLeft(s: string): (r: string)
    ensures |r| <= |s| && r == s[|s| - |r|..]
    ensures forall k :: 0 <= k < |s| - |r| ==> IsTrimChar(s[k])
    ensures r == [] || !IsTrimChar(r[0])
    decreases |s|
  {
    if s != [] && IsTrimChar(s[0]) then TrimLeft(s[1..]) else s
  }

  function TrimRight(s: string): (r: string)
    ensures |r| <= |s| && r == s[..|r|]
    ensures forall k :: |r| <= k < |s| ==> IsTrimChar(s[k])
    ensures r == [] || !IsTrimChar(r[|r| - 1])
    decreases |s|
  {
    if s != [] && IsTrimChar(s[|s| - 1]) then TrimRight(s[..|s| - 1]) else s
  }

  /**
   * PHP `trim($s)`: the result neither starts nor ends with a trim character,
   * and a string that neither starts nor ends with one is its own trim.
   */
  function Trim(s: string): (r: string)
    ensures |r| <= |s|
    ensures r == [] || (!IsTrimChar(r[0]) && !IsTrimChar(r[|r| - 1]))
    ensures s == [] || (!IsTrimChar(s[0]) && !IsTrimChar(s[|s| - 1])) ==> r == s
  {
    TrimRight(TrimLeft(s))
  }

  /** Every character is one `trim` removes. */
  predicate OnlyTrimChars(s: string) {
    forall k :: 0 <= k < |s| ==> IsTrimChar(s[k])
  }

  /** A string that holds only trim characters trims to the empty string, and only those do. */
  lemma {:induction false} TrimEmptyIff(s: string)
    ensures Trim(s) == "" <==> forall k :: 0 <= k < |s| ==> IsTrimChar(s[k])
  {
    if forall k :: 0 <= k < |s| ==> IsTrimChar(s[k]) {
      AllTrimCharsTrimLeft(s);
    }
  }

  lemma {:induction false} AllTrimCharsTrimLeft(s: string)
    requires forall k :: 0 <= k < |s| ==> IsTrimChar(s[k])
    ensures TrimLeft(s) == ""
    decreases |s|
  {
    if s != [] {
      AllTrimCharsTrimLeft(s[1..]);
    }
  }

  // ---------------------------------------------------------------------------
  // explode and implode with a one-character separator

  /** PHP `explode($sep, $s)`: the pieces between occurrences of `sep`, empty pieces kept. */
  function Explode(sep: char, s: string): (r: seq<string>)
    ensures |r| >= 1
    ensures forall k :: 0 <= k < |r| ==> sep !in r[k]
    decreases |s|
  {
    if s == [] then [""]
    else
      var rest := Explode(sep, s[1..]);
      if s[0] == sep then [""] + rest else [[s[0]] + rest[0]] + rest[1..]
  }

  /** PHP `implode($sep, $xs)`. */
  function Implode(sep: char, xs: seq<string>): string
    decreases |xs|
  {
    if |xs| == 0 then ""
    else if |xs| == 1 then xs[0]
    else xs[0] + [sep] + Implode(sep, xs[1..])
  }

  /** How often `c` occurs in `s`. */
  function Count(c: char, s: string): nat
    decreases |s|
  {
    if s == [] then 0 else (if s[0] == c then 1 else 0) + Count(c, s[1..])
  }

  /** Exploding yields exactly one more piece than there are separators. */
  lemma {:induction false} ExplodeLength(sep: char, s: string)
    ensures |Explode(sep, s)| == Count(sep, s) + 1
    decreases |s|
  {
    if s != [] {
      ExplodeLength(sep, s[1..]);
    }
  }

  /** Gluing the pieces back together with the same separator gives the original string. */
  lemma {:induction false} ImplodeExplode(sep: char, s: string)
    ensures Implode(sep, Explode(sep, s)) == s
    decreases |s|
  {
    if s != [] {
      var rest := Explode(sep, s[1..]);
      ImplodeExplode(sep, s[1..]);
      if s[0] == sep {
        assert ([""] + rest)[1..] == rest;
        assert "" + [sep] + Implode(sep, rest) == s;
      } else {
        var r := [[s[0]] + rest[0]] + rest[1..];
        if |rest| == 1 {
          assert r == [[s[0]] + rest[0]];
        } else {
          assert r[1..] == rest[1..];
          assert Implode(sep, rest) == rest[0] + [sep] + Implode(sep, rest[1..]);
        }
      }
    }
  }

  lemma {:induction false} ExplodeNoSep(sep: char, x: string)
    requires sep !in x
    ensures Explode(sep, x) == [x]
    decreases |x|
  {
    if x != [] {
      ExplodeNoSep(sep, x[1..]);
      assert [x[0]] + x[1..] == x;
    }
  }

  lemma {:induction false} ExplodeCons(sep: char, x: string, rest: string)
    requires sep !in x
    ensures Explode(sep, x + [sep] + rest) == [x] + Explode(sep, rest)
    decreases |x|
  {
    if x == [] {
      assert x + [sep] + rest == [sep] + rest;
      assert ([sep] + rest)[1..] == rest;
    } else {
      var s := x + [sep] + rest;
      assert s[0] == x[0] && s[1..] == x[1..] + [sep] + rest;
      ExplodeCons(sep, x[1..], rest);
      var e := [x[1..]] + Explode(sep, rest);
      assert Explode(sep, s) == [[x[0]] + e[0]] + e[1..];
      assert [x[0]] + x[1..] == x;
    }
  }

  /** Splitting a join gives the list back, provided no element contains the separator. */
  lemma {:induction false} ExplodeImplode(sep: char, xs: seq<string>)
    requires |xs| >= 1
    requires forall k :: 0 <= k < |xs| ==> sep !in xs[k]
    ensures Explode(sep, Implode(sep, xs)) == xs
    decreases |xs|
  {
    if |xs| == 1 {
      ExplodeNoSep(sep, xs[0]);
    } else {
      ExplodeImplode(sep, xs[1..]);
      ExplodeCons(sep, xs[0], Implode(sep, xs[1..]));
      assert [xs[0]] + xs[1..] == xs;
    }
  }

  /** A join of `n` separator-free elements holds exactly `n - 1` separators. */
  lemma {:induction false} ImplodeCount(sep: char, xs: seq<string>)
    requires |xs| >= 1
    requires forall k :: 0 <= k < |xs| ==> sep !in xs[k]
    ensures Count(sep, Implode(sep, xs)) + 1 == |xs|
  {
    ExplodeImplode(sep, xs);
    ExplodeLength(sep, Implode(sep, xs));
  }

  // ---------------------------------------------------------------------------
  // One-character str_replace

  /** PHP `str_replace($from, $to, $s)` with one-character needle and replacement. */
  function ReplaceChar(s: string, from: char, to: char): (r: string)
    ensures |r| == |s|
    ensures forall k :: 0 <= k < |s| ==> r[k] == (if s[k] == from then to else s[k])
  {
    seq(|s|, k requires 0 <= k < |s| => if s[k] == from then to else s[k])
  }

  /** PHP `str_replace($c, '', $s)` with a one-character needle: every `c` deleted, the rest kept in order. */
  function RemoveChar(s: string, c: char): (r: string)
    ensures |r| <= |s|
    ensures c !in r
    ensures forall x :: x in r ==> x in s
    decreases |s|
  {
    if s == [] then ""
    else
      var rest := RemoveChar(s[1..], c);
      var head := if s[0] == c then "" else [s[0]];
      assert forall x :: x in head + rest ==> x in head || x in rest;
      head + rest
  }

  /** Deleting a character commutes with concatenation. */
  lemma {:induction false} RemoveCharAppend(a: string, b: string, c: char)
    ensures RemoveChar(a + b, c) == RemoveChar(a, c) + RemoveChar(b, c)
    decreases |a|
  {
    if a != [] {
      RemoveCharAppend(a[1..], b, c);
      assert (a + b)[0] == a[0] && (a + b)[1..] == a[1..] + b;
      var head := if a[0] == c then "" else [a[0]];
      calc {
        RemoveChar(a + b, c);
        head + RemoveChar(a[1..] + b, c);
        head + (RemoveChar(a[1..], c) + RemoveChar(b, c));
        (head + RemoveChar(a[1..], c)) + RemoveChar(b, c);
      }
    } else {
      assert a + b == b;
    }
  }

  // ---------------------------------------------------------------------------
  // Substring test (`preg_match('/literal/', $s)` for a literal without metacharacters)

  predicate OccursAt(s: string, sub: string, i: nat) {
    i + |sub| <= |s| && s[i..i + |sub|] == sub
  }

  /** Whether `sub` occurs somewhere in `s`, searched from the left. */
  function Contains(s: string, sub: string): (r: bool)
    ensures r <==> exists i: nat :: OccursAt(s, sub, i)
    decreases |s|
  {
    if |s| < |sub| then false
    else if s[..|sub|] == sub then (assert OccursAt(s, sub, 0); true)
    else
      var r := Contains(s[1..], sub);
      ContainsShift(s, sub);
      r
  }

  lemma ContainsShift(s: string, sub: string)
    requires |s| >= |sub| && s[..|sub|] != sub
    ensures (exists i: nat :: OccursAt(s, sub, i)) <==> (exists i: nat :: OccursAt(s[1..], sub, i))
  {
    if exists i: nat :: OccursAt(s, sub, i) {
      var i: nat :| OccursAt(s, sub, i);
      assert i != 0;
      assert s[1..][i - 1..i - 1 + |sub|] == s[i..i + |sub|];
      assert OccursAt(s[1..], sub, i - 1);
    }
    if exists i: nat :: OccursAt(s[1..], sub, i) {
      var i: nat :| OccursAt(s[1..], sub, i);
      assert s[1..][i..i + |sub|] == s[i + 1..i + 1 + |sub|];
      assert OccursAt(s, sub, i + 1);
    }
  }

  // ---------------------------------------------------------------------------
  // Lower-casing

  predicate IsUpperAscii(c: char) {
    'A' <= c <= 'Z'
  }

  function LowerChar(c: char): (r: char)
    ensures !IsUpperAscii(r)
    ensures IsUpperAscii(c) ==> r as int == c as int + 32
    ensures !IsUpperAscii(c) ==> r == c
  {
    if IsUpperAscii(c) then (c as int + 32) as char else c
  }

  predicate IsLower(s: string) {
    forall k :: 0 <= k < |s| ==> !IsUpperAscii(s[k])
  }

  /** Lower-casing of ASCII letters; every other character is kept (the model's `mb_strtolower`). */
  function ToLower(s: string): (r: string)
    ensures |r| == |s|
    ensures IsLower(r)
    ensures IsLower(s) ==> r == s
  {
    seq(|s|, k requires 0 <= k < |s| => LowerChar(s[k]))
  }

  // ---------------------------------------------------------------------------
  // array_unique

  predicate NoDuplicates(s: seq<string>) {
    forall i, j :: 0 <= i < j < |s| ==> s[i] != s[j]
  }

  /**
   * PHP `array_unique` over a list: every value kept at its first occurrence,
   * later repeats dropped.
   */
  function Unique(s: seq<string>): seq<string>
    decreases |s|
  {
    if |s| == 0 then []
    else
      var d := Unique(s[..|s| - 1]);
      var x := s[|s| - 1];
      if x in d then d else d + [x]
  }

  /** No value is kept twice. */
  lemma {:induction false} UniqueNoDuplicates(s: seq<string>)
    ensures NoDuplicates(Unique(s))
    decreases |s|
  {
    if |s| > 0 {
      UniqueNoDuplicates(s[..|s| - 1]);
    }
  }

  /** Exactly the values of the input are kept. */
  lemma {:induction false} UniqueMembers(s: seq<string>)
    ensures forall x :: x in Unique(s) <==> x in s
    decreases |s|
  {
    if |s| > 0 {
      UniqueMembers(s[..|s| - 1]);
      assert forall y :: y in s <==> y in s[..|s| - 1] || y == s[|s| - 1];
    }
  }

  /** The elements of `s` that do not occur in `a`, in the order of `s`. */
  function Without(s: seq<string>, a: seq<string>): seq<string>
    decreases |s|
  {
    if |s| == 0 then []
    else
      var w := Without(s[..|s| - 1], a);
      var x := s[|s| - 1];
      if x in a then w else w + [x]
  }

  lemma {:induction false} WithoutMembers(s: seq<string>, a: seq<string>)
    ensures forall x :: x in Without(s, a) <==> x in s && x !in a
    decreases |s|
  {
    if |s| > 0 {
      WithoutMembers(s[..|s| - 1], a);
      assert forall y :: y in s <==> y in s[..|s| - 1] || y == s[|s| - 1];
    }
  }

  lemma UniqueSnoc(s: seq<string>, x: string)
    ensures Unique(s + [x]) == if x in Unique(s) then Unique(s) else Unique(s) + [x]
  {
    assert (s + [x])[..|s|] == s;
  }

  lemma WithoutSnoc(s: seq<string>, x: string, a: seq<string>)
    ensures Without(s + [x], a) == if x in a then Without(s, a) else Without(s, a) + [x]
  {
    assert (s + [x])[..|s|] == s;
  }

  lemma SplitLast(a: seq<string>, b: seq<string>)
    requires b != []
    ensures b == b[..|b| - 1] + [b[|b| - 1]]
    ensures a + b == (a + b[..|b| - 1]) + [b[|b| - 1]]
  {
  }

  lemma AppendAssoc(a: seq<string>, b: seq<string>, c: seq<string>)
    ensures (a + b) + c == a + (b + c)
  {
  }

  /**
   * De-duplicating a concatenation keeps the de-duplicated first part, then the
   * values of the second part that were not already seen, in first-occurrence order.
   */
  lemma {:induction false} UniqueAppend(a: seq<string>, b: seq<string>)
    ensures Unique(a + b) == Unique(a) + Without(Unique(b), a)
    decreases |b|
  {
    if |b| == 0 {
      assert a + b == a;
      assert Unique(b) == [] && Without([], a) == [];
      assert Unique(a) + [] == Unique(a);
    } else {
      var b' := b[..|b| - 1];
      var x := b[|b| - 1];
      SplitLast(a, b);
      UniqueAppend(a, b');
      UniqueSnoc(a + b', x);
      UniqueSnoc(b', x);
      var ub := Unique(b');
      var left := Unique(a + b');
      assert left == Unique(a) + Without(ub, a);
      UniqueMembers(a + b');
      UniqueMembers(b');
      assert x in left <==> x in a || x in b';
      if x in a {
        assert Unique(a + b) == left;
        if x !in ub {
          WithoutSnoc(ub, x, a);
        }
        assert Without(Unique(b), a) == Without(ub, a);
      } else if x in b' {
        assert Unique(a + b) == left;
        assert Unique(b) == ub;
      } else {
        assert Unique(a + b) == left + [x];
        assert Unique(b) == ub + [x];
        WithoutSnoc(ub, x, a);
        assert Without(Unique(b), a) == Without(ub, a) + [x];
        AppendAssoc(Unique(a), Without(ub, a), [x]);
      }
    }
  }
}
