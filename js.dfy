/** The parts of the JavaScript runtime that the question library relies on:
    `null`, thrown errors, `Array.prototype.filter/splice/reduce/join`,
    `String.prototype.split` and `String(...)` on integers and booleans.
    Numbers are modelled as unbounded integers. */
module Js {

  /** `null`, or a value. */
  datatype Option<T> = None | Some(value: T)

  /** The two `TypeError`s the library can raise. */
  datatype JsError =
    | ReduceOfEmptyArray   // `reduce` without an initial value on `[]`
    | PropertyOfUndefined  // reading or writing a property of `undefined`

  /** A call that returns normally or throws. */
  datatype Outcome<T> = Ok(value: T) | Throws(error: JsError)

  /** `s` lists a subset of the elements of `t`, in the order `t` has them. */
  predicate IsSubsequence<T(==)>(s: seq<T>, t: seq<T>)
    decreases |t|
  {
    if s == [] then true
    else if t == [] then false
    else if s[0] == t[0] then IsSubsequence(s[1..], t[1..])
    else IsSubsequence(s, t[1..])
  }

  lemma {:induction false} EmptyIsSubsequence<T>(t: seq<T>)
    ensures IsSubsequence([], t)
  {
  }

  // ---------------------------------------------------------------------------
  // Array.prototype.filter

  /** `s.filter(keep)`: the elements of `s` that `keep` accepts, in order. */
  function Filter<T>(s: seq<T>, keep: T -> bool): (r: seq<T>)
    ensures |r| <= |s|
    ensures forall i :: 0 <= i < |r| ==> keep(r[i]) && r[i] in s
    ensures forall i :: 0 <= i < |s| && keep(s[i]) ==> s[i] in r
    decreases |s|
  {
    if s == [] then []
    else if keep(s[0]) then [s[0]] + Filter(s[1..], keep)
    else Filter(s[1..], keep)
  }

  /** The filter keeps the relative order of what it keeps. */
  lemma {:induction false} FilterIsSubsequence<T>(s: seq<T>, keep: T -> bool)
    ensures IsSubsequence(Filter(s, keep), s)
    decreases |s|
  {
    if s != [] {
      FilterIsSubsequence(s[1..], keep);
      var r := Filter(s, keep);
      if keep(s[0]) {
        assert r[0] == s[0] && r[1..] == Filter(s[1..], keep);
      } else if r != [] {
        // r does not start with the dropped s[0], because keep(s[0]) is false
        assert keep(r[0]);
      } else {
        EmptyIsSubsequence(s);
      }
    }
  }

  /** Filtering distributes over concatenation; together with the case of a single
      element this pins the filter down completely. */
  lemma {:induction false} FilterConcat<T>(a: seq<T>, b: seq<T>, keep: T -> bool)
    ensures Filter(a + b, keep) == Filter(a, keep) + Filter(b, keep)
    decreases |a|
  {
    if a == [] {
      assert a + b == b;
    } else {
      assert (a + b)[0] == a[0];
      assert (a + b)[1..] == a[1..] + b;
      FilterConcat(a[1..], b, keep);
    }
  }

  lemma FilterSingleton<T>(x: T, keep: T -> bool)
    ensures Filter([x], keep) == if keep(x) then [x] else []
  {
    assert [x][1..] == [];
  }

  /** The filter returns its input exactly when it accepts every element. */
  lemma {:induction false} FilterAll<T>(s: seq<T>, keep: T -> bool)
    ensures Filter(s, keep) == s <==> forall i :: 0 <= i < |s| ==> keep(s[i])
    decreases |s|
  {
    if s != [] {
      FilterAll(s[1..], keep);
      if keep(s[0]) {
        var r := Filter(s, keep);
        assert r == [s[0]] + Filter(s[1..], keep);
        assert r == s <==> Filter(s[1..], keep) == s[1..] by {
          if r == s {
            assert Filter(s[1..], keep) == r[1..];
          }
          if Filter(s[1..], keep) == s[1..] {
            assert r == [s[0]] + s[1..];
          }
        }
        assert (forall i :: 0 <= i < |s| ==> keep(s[i]))
          <==> (forall i :: 0 <= i < |s[1..]| ==> keep(s[1..][i])) by {
          assert forall i :: 0 < i < |s| ==> s[i] == s[1..][i - 1];
        }
      } else {
        assert |Filter(s, keep)| <= |s[1..]|;
      }
    }
  }

  // ---------------------------------------------------------------------------
  // Array.prototype.splice, for the array it leaves behind

  /** Where `splice(start, ...)` begins on an array of length `len`: a negative
      start counts back from the end and is clamped at 0, and a start past the
      end is clamped to the end. */
  function SpliceStart(len: nat, start: int): (k: nat)
    ensures k <= len
    ensures 0 <= start <= len ==> k == start
    ensures start < 0 && len + start >= 0 ==> k == len + start
  {
    if start < 0 then (if len + start < 0 then 0 else len + start)
    else if start > len then len
    else start
  }

  /** The array `s` becomes after `s.splice(start, deleteCount, ...items)`:
      `deleteCount` is clamped to what is left after the start. */
  function Splice<T>(s: seq<T>, start: int, deleteCount: int, items: seq<T>): (r: seq<T>)
    ensures var k := SpliceStart(|s|, start);
      k + |items| <= |r| <= |s| + |items|
      && r[..k] == s[..k] && r[k..k + |items|] == items
      && r[k + |items|..] == s[|s| - (|r| - k - |items|)..]
    ensures deleteCount <= 0 ==> |r| == |s| + |items|
    ensures var k := SpliceStart(|s|, start);
      0 <= deleteCount <= |s| - k ==> |r| == |s| + |items| - deleteCount
    ensures var k := SpliceStart(|s|, start);
      deleteCount >= |s| - k ==> |r| == k + |items|
  {
    var k := SpliceStart(|s|, start);
    var d := if deleteCount < 0 then 0 else if deleteCount > |s| - k then |s| - k else deleteCount;
    s[..k] + items + s[k + d..]
  }

  /** Deleting one element at a valid index. */
  lemma SpliceDeleteOne<T>(s: seq<T>, k: int)
    requires 0 <= k < |s|
    ensures Splice(s, k, 1, []) == s[..k] + s[k + 1..]
    ensures |Splice(s, k, 1, [])| == |s| - 1
  {
  }

  /** `splice(-1, 1)` deletes the last element, and does nothing to `[]`. */
  lemma SpliceMinusOne<T>(s: seq<T>)
    ensures s != [] ==> Splice(s, -1, 1, []) == s[..|s| - 1]
    ensures s == [] ==> Splice(s, -1, 1, []) == []
  {
  }

  /** Inserting one element at a valid position. */
  lemma SpliceInsertOne<T>(s: seq<T>, k: int, x: T)
    requires 0 <= k <= |s|
    ensures Splice(s, k, 0, [x]) == s[..k] + [x] + s[k..]
  {
  }

  // ---------------------------------------------------------------------------
  // Array.prototype.reduce with `+` and no initial value

  /** The sum of a list of numbers. */
  function Sum(xs: seq<int>): int
    decreases |xs|
  {
    if xs == [] then 0 else xs[0] + Sum(xs[1..])
  }

  /** The left-to-right accumulation `reduce` performs. */
  function FoldAdd(acc: int, xs: seq<int>): int
    decreases |xs|
  {
    if xs == [] then acc else FoldAdd(acc + xs[0], xs[1..])
  }

  lemma {:induction false} FoldAddIsSum(acc: int, xs: seq<int>)
    ensures FoldAdd(acc, xs) == acc + Sum(xs)
    decreases |xs|
  {
    if xs != [] {
      FoldAddIsSum(acc + xs[0], xs[1..]);
    }
  }

  /** `xs.reduce((total, x) => total + x)`: starts from `xs[0]`, so it throws on `[]`. */
  function ReduceAdd(xs: seq<int>): (r: Outcome<int>)
    ensures r.Throws? <==> xs == []
    ensures r.Throws? ==> r.error == ReduceOfEmptyArray
    ensures r.Ok? ==> r.value == Sum(xs)
  {
    if xs == [] then Throws(ReduceOfEmptyArray)
    else
      FoldAddIsSum(xs[0], xs[1..]);
      Ok(FoldAdd(xs[0], xs[1..]))
  }

  // ---------------------------------------------------------------------------
  // String(...) on integers and booleans

  predicate IsDigit(c: char) {
    '0' <= c <= '9'
  }

  function DigitChar(d: nat): (c: char)
    requires d < 10
    ensures IsDigit(c)
  {
    "0123456789"[d]
  }

  function DigitValue(c: char): nat
    requires IsDigit(c)
  {
    (c as int - '0' as int) as nat
  }

  predicate AllDigits(s: string) {
    forall k :: 0 <= k < |s| ==> IsDigit(s[k])
  }

  /** At least one decimal digit, optionally after a minus sign. */
  predicate IsIntText(s: string) {
    if s != [] && s[0] == '-' then |s| > 1 && AllDigits(s[1..]) else s != [] && AllDigits(s)
  }

  /** Decimal digits of `n`, most significant first, with no leading zero. */
  function NatToString(n: nat): (s: string)
    ensures |s| >= 1
    ensures AllDigits(s)
    ensures |s| > 1 ==> s[0] != '0'
    decreases n
  {
    if n < 10 then [DigitChar(n)] else NatToString(n / 10) + [DigitChar(n % 10)]
  }

  /** `String(i)` for an integer number. */
  function IntToString(i: int): (s: string)
    ensures |s| >= 1
    ensures IsIntText(s)
    ensures forall k :: 0 <= k < |s| ==> IsDigit(s[k]) || s[k] == '-'
  {
    if i < 0 then
      assert ("-" + NatToString(-i))[1..] == NatToString(-i);
      "-" + NatToString(-i)
    else NatToString(i)
  }

  /** `String(b)` for a boolean. */
  function BoolToString(b: bool): (r: string)
    ensures r == "true" || r == "false"
    ensures r == "true" <==> b
  {
    if b then "true" else "false"
  }

  /** Reads back a string of decimal digits. */
  function ParseNat(s: string): nat
    requires AllDigits(s)
    decreases |s|
  {
    if s == [] then 0 else 10 * ParseNat(s[..|s| - 1]) + DigitValue(s[|s| - 1])
  }

  /** Reads back an optionally negative decimal integer. */
  function ParseInt(s: string): int
    requires IsIntText(s)
  {
    if s != [] && s[0] == '-' then -(ParseNat(s[1..]) as int) else ParseNat(s)
  }

  lemma {:induction false} NatRoundTrip(n: nat)
    ensures ParseNat(NatToString(n)) == n
    decreases n
  {
    if n >= 10 {
      NatRoundTrip(n / 10);
      var s := NatToString(n);
      assert s[..|s| - 1] == NatToString(n / 10);
    }
  }

  /** `String(i)` loses nothing: the number is read back exactly. */
  lemma IntRoundTrip(i: int)
    ensures ParseInt(IntToString(i)) == i
  {
    var s := IntToString(i);
    if i < 0 {
      assert s[0] == '-' && s[1..] == NatToString(-i);
      NatRoundTrip(-i);
    } else {
      assert s == NatToString(i) && IsDigit(s[0]);
      NatRoundTrip(i);
    }
  }

  // ---------------------------------------------------------------------------
  // Array.prototype.join and String.prototype.split

  /** `xs.join(sep)`: nothing for `[]`, and `sep` only between elements. */
  function Join(xs: seq<string>, sep: string): string
    decreases |xs|
  {
    if xs == [] then ""
    else if |xs| == 1 then xs[0]
    else xs[0] + sep + Join(xs[1..], sep)
  }

  /** Position of the first `c` in `s`. */
  function IndexOf(s: string, c: char): (i: nat)
    requires c in s
    ensures i < |s| && s[i] == c && c !in s[..i]
    decreases |s|
  {
    if s[0] == c then 0 else 1 + IndexOf(s[1..], c)
  }

  /** `s.split(c)` for a one-character separator. */
  function Split(s: string, c: char): (r: seq<string>)
    ensures |r| >= 1
    decreases |s|
  {
    if c !in s then [s]
    else
      var i := IndexOf(s, c);
      [s[..i]] + Split(s[i + 1..], c)
  }

  lemma {:induction false} IndexOfAfter(a: string, c: char, b: string)
    requires c !in a
    ensures c in a + [c] + b && IndexOf(a + [c] + b, c) == |a|
    decreases |a|
  {
    var s := a + [c] + b;
    assert s[|a|] == c;
    if a != [] {
      assert s[0] == a[0];
      assert s[1..] == a[1..] + [c] + b;
      IndexOfAfter(a[1..], c, b);
    }
  }

  /** Splitting on a separator that no element contains undoes the join. */
  lemma {:induction false} SplitJoin(xs: seq<string>, c: char)
    requires xs != []
    requires forall k :: 0 <= k < |xs| ==> c !in xs[k]
    ensures Split(Join(xs, [c]), c) == xs
    decreases |xs|
  {
    if |xs| == 1 {
      assert Join(xs, [c]) == xs[0];
    } else {
      var s := Join(xs, [c]);
      var rest := Join(xs[1..], [c]);
      assert s == xs[0] + [c] + rest;
      IndexOfAfter(xs[0], c, rest);
      assert s[..|xs[0]|] == xs[0];
      assert s[|xs[0]| + 1..] == rest;
      SplitJoin(xs[1..], c);
      assert [xs[0]] + xs[1..] == xs;
    }
  }
}
