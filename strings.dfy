/** String helpers that mirror the parts of Rust's standard library the
    program relies on: the ordering of `String`, decimal formatting of
    integers, `str::split` on a character, and the `sort_unstable`,
    `dedup` and `retain` calls on a vector of ids. */
module Strings {

  /** Rust's `<` on `String`: lexicographic comparison of the characters
      (UTF-8 byte order and code point order agree). */
  predicate Less(a: string, b: string)
    decreases |a|
  {
    if |a| == 0 then |b| > 0
    else if |b| == 0 then false
    else if a[0] != b[0] then a[0] < b[0]
    else Less(a[1..], b[1..])
  }

  lemma {:induction false} LessIrreflexive(a: string)
    ensures !Less(a, a)
    decreases |a|
  {
    if |a| > 0 {
      LessIrreflexive(a[1..]);
    }
  }

  lemma {:induction false} LessAsymmetric(a: string, b: string)
    ensures Less(a, b) ==> !Less(b, a)
    decreases |a|
  {
    if |a| > 0 && |b| > 0 && a[0] == b[0] {
      LessAsymmetric(a[1..], b[1..]);
    }
  }

  lemma {:induction false} LessTransitive(a: string, b: string, c: string)
    requires Less(a, b) && Less(b, c)
    ensures Less(a, c)
    decreases |a|
  {
    if |a| > 0 && a[0] == b[0] && b[0] == c[0] {
      LessTransitive(a[1..], b[1..], c[1..]);
    }
  }

  lemma {:induction false} LessTotal(a: string, b: string)
    ensures a == b || Less(a, b) || Less(b, a)
    decreases |a|
  {
    if |a| > 0 && |b| > 0 && a[0] == b[0] {
      LessTotal(a[1..], b[1..]);
      if a[1..] == b[1..] {
        assert a == [a[0]] + a[1..] && b == [b[0]] + b[1..];
      }
    }
  }

  /** The decimal digit for `d < 10`. */
  function Digit(d: nat): (c: char)
    requires d < 10
    ensures '0' <= c <= '9'
  {
    "0123456789"[d]
  }

  /** The value of a decimal digit character. */
  function DigitValue(c: char): nat
  {
    if '0' <= c <= '9' then (c as int - '0' as int) else 0
  }

  /** The pieces of a `format!` string, concatenated in order. */
  function Concat(parts: seq<string>): string
    decreases |parts|
  {
    if |parts| == 0 then "" else Concat(parts[..|parts| - 1]) + parts[|parts| - 1]
  }

  /** `format!("{}", n)` for an unsigned integer: decimal, no leading zeros. */
  function NatToString(n: nat): (s: string)
    ensures |s| >= 1
    ensures forall i :: 0 <= i < |s| ==> '0' <= s[i] <= '9'
    decreases n
  {
    if n < 10 then [Digit(n)] else NatToString(n / 10) + [Digit(n % 10)]
  }

  /** The value of a string of decimal digits (the inverse of `NatToString`). */
  function DecimalValue(s: string): nat
    decreases |s|
  {
    if |s| == 0 then 0 else DecimalValue(s[..|s| - 1]) * 10 + DigitValue(s[|s| - 1])
  }

  lemma {:induction false} DecimalRoundTrip(n: nat)
    ensures DecimalValue(NatToString(n)) == n
    decreases n
  {
    var s := NatToString(n);
    if n < 10 {
      assert s[..0] == [];
      assert DigitValue(Digit(n)) == n by {
        assert "0123456789"[n] as int == '0' as int + n;
      }
    } else {
      DecimalRoundTrip(n / 10);
      assert s[..|s| - 1] == NatToString(n / 10);
      assert DigitValue(Digit(n % 10)) == n % 10 by {
        assert "0123456789"[n % 10] as int == '0' as int + n % 10;
      }
    }
  }

  lemma NatToStringInjective(m: nat, n: nat)
    requires NatToString(m) == NatToString(n)
    ensures m == n
  {
    DecimalRoundTrip(m);
    DecimalRoundTrip(n);
  }

  /** Rust's `str::split(c)` collected into a vector: the pieces between
      occurrences of `c`; the empty string gives one empty piece. */
  function Split(s: string, c: char): (r: seq<string>)
    ensures |r| >= 1
    decreases |s|
  {
    if |s| == 0 then [""]
    else
      var rest := Split(s[1..], c);
      if s[0] == c then [""] + rest else [[s[0]] + rest[0]] + rest[1..]
  }

  /** The pieces glued back with the separator (`join`). */
  function Join(pieces: seq<string>, c: char): string
    decreases |pieces|
  {
    if |pieces| == 0 then "" else if |pieces| == 1 then pieces[0] else pieces[0] + [c] + Join(pieces[1..], c)
  }

  lemma {:induction false} SplitJoin(s: string, c: char)
    ensures Join(Split(s, c), c) == s
    ensures forall k :: 0 <= k < |Split(s, c)| ==> c !in Split(s, c)[k]
    decreases |s|
  {
    if |s| > 0 {
      SplitJoin(s[1..], c);
      var rest := Split(s[1..], c);
      if s[0] == c {
        assert s == [c] + s[1..];
      } else {
        assert s == [s[0]] + s[1..];
        if |rest| > 1 {
          assert rest == [rest[0]] + rest[1..];
        }
      }
    }
  }

  /** The number of pieces is one more than the number of separators. */
  lemma {:induction false} SplitCount(s: string, c: char)
    ensures |Split(s, c)| == multiset(s)[c] + 1
    decreases |s|
  {
    if |s| > 0 {
      SplitCount(s[1..], c);
      assert s == [s[0]] + s[1..];
      assert multiset(s) == multiset{s[0]} + multiset(s[1..]);
    }
  }

  /** Gluing two strings with the separator concatenates their pieces. */
  lemma {:induction false} SplitGlue(a: string, b: string, c: char)
    ensures Split(a + [c] + b, c) == Split(a, c) + Split(b, c)
    decreases |a|
  {
    var s := a + [c] + b;
    if |a| == 0 {
      assert s[0] == c && s[1..] == b;
    } else {
      assert s[0] == a[0] && s[1..] == a[1..] + [c] + b;
      SplitGlue(a[1..], b, c);
      var front := Split(a[1..], c);
      assert Split(s[1..], c) == front + Split(b, c);
      if a[0] != c {
        assert (front + Split(b, c))[0] == front[0];
        assert (front + Split(b, c))[1..] == front[1..] + Split(b, c);
      }
    }
  }

  /** Rust's `sort_unstable` on a vector of strings (insertion sort). */
  function Insert(x: string, xs: seq<string>): seq<string>
    decreases |xs|
  {
    if |xs| == 0 || !Less(xs[0], x) then [x] + xs else [xs[0]] + Insert(x, xs[1..])
  }

  function Sort(xs: seq<string>): seq<string>
    decreases |xs|
  {
    if |xs| == 0 then [] else Insert(xs[0], Sort(xs[1..]))
  }

  ghost predicate Sorted(xs: seq<string>)
  {
    forall i, j :: 0 <= i < j < |xs| ==> !Less(xs[j], xs[i])
  }

  ghost predicate StrictlySorted(xs: seq<string>)
  {
    forall i, j :: 0 <= i < j < |xs| ==> Less(xs[i], xs[j])
  }

  lemma {:induction false} InsertPermutes(x: string, xs: seq<string>)
    ensures multiset(Insert(x, xs)) == multiset{x} + multiset(xs)
    decreases |xs|
  {
    if |xs| > 0 && Less(xs[0], x) {
      InsertPermutes(x, xs[1..]);
      assert xs == [xs[0]] + xs[1..];
    }
  }

  lemma {:induction false} InsertSorted(x: string, xs: seq<string>)
    requires Sorted(xs)
    ensures Sorted(Insert(x, xs)) && multiset(Insert(x, xs)) == multiset{x} + multiset(xs)
    decreases |xs|
  {
    InsertPermutes(x, xs);
    if |xs| == 0 || !Less(xs[0], x) {
      var r := [x] + xs;
      forall i, j | 0 <= i < j < |r| ensures !Less(r[j], r[i]) {
        if i == 0 && j > 1 {
          LessTotal(xs[0], xs[j - 1]);
          if Less(xs[0], xs[j - 1]) && Less(xs[j - 1], x) {
            LessTransitive(xs[0], xs[j - 1], x);
          }
        }
      }
    } else {
      InsertSorted(x, xs[1..]);
      var tail := Insert(x, xs[1..]);
      var r := [xs[0]] + tail;
      forall i, j | 0 <= i < j < |r| ensures !Less(r[j], r[i]) {
        if i == 0 {
          assert r[j] in multiset(tail);
          if r[j] == x {
            LessAsymmetric(xs[0], x);
          } else {
            assert r[j] in xs[1..];
            var k :| 0 <= k < |xs[1..]| && xs[1..][k] == r[j];
            assert xs[k + 1] == r[j];
          }
        }
      }
    }
  }

  lemma {:induction false} SortSorted(xs: seq<string>)
    ensures Sorted(Sort(xs)) && multiset(Sort(xs)) == multiset(xs)
    decreases |xs|
  {
    if |xs| > 0 {
      SortSorted(xs[1..]);
      InsertSorted(xs[0], Sort(xs[1..]));
      assert xs == [xs[0]] + xs[1..];
    }
  }

  /** The set of elements of a sequence. */
  function Elems<T>(xs: seq<T>): set<T>
  {
    set x | x in xs
  }

  /** Rust's `Vec::dedup`: drops consecutive repeated elements. */
  function Dedup(xs: seq<string>): seq<string>
    decreases |xs|
  {
    if |xs| <= 1 then xs
    else if xs[0] == xs[1] then Dedup(xs[1..])
    else [xs[0]] + Dedup(xs[1..])
  }

  lemma {:induction false} DedupSorted(xs: seq<string>)
    requires Sorted(xs)
    ensures StrictlySorted(Dedup(xs)) && Elems(Dedup(xs)) == Elems(xs)
    decreases |xs|
  {
    if |xs| > 1 {
      DedupSorted(xs[1..]);
      var tail := Dedup(xs[1..]);
      assert xs == [xs[0]] + xs[1..];
      assert Elems(xs) == {xs[0]} + Elems(xs[1..]);
      if xs[0] == xs[1] {
        assert xs[1] in Elems(xs[1..]);
      } else {
        var r := [xs[0]] + tail;
        assert Elems(r) == {xs[0]} + Elems(tail);
        forall i, j | 0 <= i < j < |r| ensures Less(r[i], r[j]) {
          if i == 0 {
            assert r[j] in Elems(tail);
            assert r[j] in xs[1..];
            var k :| 0 <= k < |xs[1..]| && xs[1..][k] == r[j];
            assert !Less(xs[1], xs[0]);
            LessTotal(xs[0], xs[1]);
            if k > 0 {
              assert !Less(xs[k + 1], xs[1]);
              LessTotal(xs[1], xs[k + 1]);
              if xs[1] != xs[k + 1] {
                LessTransitive(xs[0], xs[1], xs[k + 1]);
              }
            }
          }
        }
      }
    }
  }

  lemma ElemsCons<T>(x: T, xs: seq<T>)
    ensures Elems([x] + xs) == {x} + Elems(xs)
  {
  }

  lemma ElemsSnoc<T>(xs: seq<T>, x: T)
    ensures Elems(xs + [x]) == Elems(xs) + {x}
  {
  }

  /** Rust's `Vec::retain(|x| *x != a && *x != b)`. */
  function Without(xs: seq<string>, a: string, b: string): (r: seq<string>)
    ensures Elems(r) == Elems(xs) - {a, b}
    decreases |xs|
  {
    if |xs| == 0 then []
    else
    ElemsCons(xs[0], xs[1..]);
    assert xs == [xs[0]] + xs[1..];
    if xs[0] == a || xs[0] == b then Without(xs[1..], a, b)
    else ElemsCons(xs[0], Without(xs[1..], a, b)); [xs[0]] + Without(xs[1..], a, b)
  }

  /** Two strictly sorted sequences with the same elements are equal: a
      strictly sorted sequence is determined by its set of elements. */
  lemma {:induction false} StrictlySortedUnique(xs: seq<string>, ys: seq<string>)
    requires StrictlySorted(xs) && StrictlySorted(ys) && Elems(xs) == Elems(ys)
    ensures xs == ys
    decreases |xs|
  {
    if |xs| > 0 {
      assert xs[0] in Elems(xs);
    }
    if |ys| > 0 {
      assert ys[0] in Elems(ys);
    }
    if |xs| > 0 && |ys| > 0 {
      assert xs[0] in Elems(ys) && ys[0] in Elems(xs);
      var k :| 0 <= k < |ys| && ys[k] == xs[0];
      var m :| 0 <= m < |xs| && xs[m] == ys[0];
      if k > 0 {
        if m == 0 {
          LessIrreflexive(ys[0]);
        } else {
          LessAsymmetric(xs[0], xs[m]);
        }
        assert false;
      }
      assert xs[0] !in xs[1..] by { LessIrreflexive(xs[0]); }
      assert ys[0] !in ys[1..] by { LessIrreflexive(ys[0]); }
      assert xs == [xs[0]] + xs[1..] && ys == [ys[0]] + ys[1..];
      assert Elems(xs[1..]) == Elems(xs) - {xs[0]};
      assert Elems(ys[1..]) == Elems(ys) - {ys[0]};
      StrictlySortedUnique(xs[1..], ys[1..]);
    }
  }

  lemma {:induction false} WithoutSorted(xs: seq<string>, a: string, b: string)
    requires StrictlySorted(xs)
    ensures StrictlySorted(Without(xs, a, b))
    decreases |xs|
  {
    if |xs| > 0 {
      WithoutSorted(xs[1..], a, b);
      var tail := Without(xs[1..], a, b);
      if xs[0] != a && xs[0] != b {
        var r := [xs[0]] + tail;
        forall i, j | 0 <= i < j < |r| ensures Less(r[i], r[j]) {
          if i == 0 {
            assert r[j] in Elems(tail);
            var k :| 0 <= k < |xs[1..]| && xs[1..][k] == r[j];
            assert xs[k + 1] == r[j];
          }
        }
      }
    }
  }

  /** The sorted, duplicate-free form of a vector of ids without `a` and
      `b`: `sort_unstable`, then `dedup`, then `retain`. */
  function Normalized(xs: seq<string>, a: string, b: string): (r: seq<string>)
  {
    Without(Dedup(Sort(xs)), a, b)
  }

  lemma NormalizedSpec(xs: seq<string>, a: string, b: string)
    ensures StrictlySorted(Normalized(xs, a, b))
    ensures Elems(Normalized(xs, a, b)) == Elems(xs) - {a, b}
  {
    SortSorted(xs);
    DedupSorted(Sort(xs));
    WithoutSorted(Dedup(Sort(xs)), a, b);
    assert Elems(Sort(xs)) == Elems(xs) by {
      forall x ensures x in Sort(xs) <==> x in xs {
        assert x in Sort(xs) <==> x in multiset(Sort(xs));
        assert x in xs <==> x in multiset(xs);
      }
    }
  }

  /** Joining two strings with the separator adds up their piece counts. */
  lemma SplitAppend(a: string, b: string, c: char)
    ensures |Split(a + [c] + b, c)| == |Split(a, c)| + |Split(b, c)|
  {
    SplitCount(a + [c] + b, c);
    SplitCount(a, c);
    SplitCount(b, c);
    assert multiset(a + [c] + b) == multiset(a) + multiset{c} + multiset(b);
  }
}
