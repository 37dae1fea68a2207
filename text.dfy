/**
 * The text primitives the link-state wire format is built from:
 * Python's `str.split(sep)` and `sep.join(fields)` over one separator
 * character, and the decimal text of integers written by `str(int)` and
 * read back by `int(text)`.
 */
module Text {
  import opened Wrappers

  /** `s.split(sep)`: the maximal separator-free pieces of `s`, in order. */
  function Split(s: string, sep: char): (r: seq<string>)
    ensures |r| >= 1
    ensures forall i :: 0 <= i < |r| ==> sep !in r[i]
    decreases |s|
  {
    if |s| == 0 then [""]
    else
      var rest := Split(s[1..], sep);
      if s[0] == sep then [""] + rest
      else [[s[0]] + rest[0]] + rest[1..]
  }

  /** `sep.join(fs)`: the fields of `fs` with one separator between neighbours. */
  function Join(fs: seq<string>, sep: char): (r: string)
    ensures |fs| == 0 ==> r == ""
    ensures |fs| >= 1 ==> |r| == TotalLength(fs) + |fs| - 1
    decreases |fs|
  {
    if |fs| == 0 then ""
    else if |fs| == 1 then fs[0]
    else fs[0] + [sep] + Join(fs[1..], sep)
  }

  /** The number of characters in all the fields together. */
  function TotalLength(fs: seq<string>): nat
    decreases |fs|
  {
    if |fs| == 0 then 0 else |fs[0]| + TotalLength(fs[1..])
  }

  /** Joining what was split gives back the original text. */
  lemma {:induction false} JoinSplit(s: string, sep: char)
    ensures Join(Split(s, sep), sep) == s
    decreases |s|
  {
    if |s| > 0 {
      var rest := Split(s[1..], sep);
      JoinSplit(s[1..], sep);
      if s[0] == sep {
        assert Split(s, sep) == [""] + rest;
        assert Join([""] + rest, sep) == "" + [sep] + Join(rest, sep);
        assert s == [sep] + s[1..];
      } else {
        var r := Split(s, sep);
        assert r == [[s[0]] + rest[0]] + rest[1..];
        if |rest| == 1 {
          assert Join(r, sep) == [s[0]] + rest[0];
        } else {
          assert Join(r, sep) == [s[0]] + rest[0] + [sep] + Join(rest[1..], sep);
          assert Join(rest, sep) == rest[0] + [sep] + Join(rest[1..], sep);
        }
        assert s == [s[0]] + s[1..];
      }
    }
  }

  /** Splitting `a + t` where `a` holds no separator glues `a` onto the first piece of `t`. */
  lemma {:induction false} SplitPrefix(a: string, t: string, sep: char)
    requires sep !in a
    ensures Split(a + t, sep) == [a + Split(t, sep)[0]] + Split(t, sep)[1..]
    decreases |a|
  {
    if |a| > 0 {
      SplitPrefix(a[1..], t, sep);
      var st := Split(t, sep);
      var rest := Split((a + t)[1..], sep);
      assert (a + t)[1..] == a[1..] + t;
      assert rest == [a[1..] + st[0]] + st[1..];
      assert (a + t)[0] == a[0] && a[0] != sep;
      assert Split(a + t, sep) == [[a[0]] + rest[0]] + rest[1..];
      assert [a[0]] + (a[1..] + st[0]) == a + st[0];
    } else {
      var st := Split(t, sep);
      assert a + t == t && a + st[0] == st[0];
      assert [st[0]] + st[1..] == st;
    }
  }

  /** Splitting what was joined gives back the fields, provided none holds the separator. */
  lemma {:induction false} SplitJoin(fs: seq<string>, sep: char)
    requires |fs| >= 1
    requires forall i :: 0 <= i < |fs| ==> sep !in fs[i]
    ensures Split(Join(fs, sep), sep) == fs
    decreases |fs|
  {
    if |fs| == 1 {
      SplitPrefix(fs[0], "", sep);
      assert fs[0] + "" == fs[0];
    } else {
      var j := Join(fs[1..], sep);
      SplitJoin(fs[1..], sep);
      assert Join(fs, sep) == fs[0] + ([sep] + j);
      SplitPrefix(fs[0], [sep] + j, sep);
      assert ([sep] + j)[1..] == j;
      assert Split([sep] + j, sep) == [""] + fs[1..];
      assert fs[0] + "" == fs[0];
      assert fs == [fs[0]] + fs[1..];
    }
  }

  /**
   * Splitting a join whose first `k` fields hold no separator gives back
   * those fields, followed by the split of the join of the others.
   */
  lemma {:induction false} SplitJoinHead(fs: seq<string>, sep: char, k: nat)
    requires k < |fs|
    requires forall i :: 0 <= i < k ==> sep !in fs[i]
    ensures Split(Join(fs, sep), sep) == fs[..k] + Split(Join(fs[k..], sep), sep)
    decreases k
  {
    if k == 0 {
      assert fs[k..] == fs;
      assert fs[..k] == [];
    } else {
      var tail := fs[1..];
      var rest := Split(Join(fs[k..], sep), sep);
      assert Split(Join(tail, sep), sep) == tail[..k - 1] + rest by {
        SplitJoinHead(tail, sep, k - 1);
        assert tail[k - 1..] == fs[k..];
      }
      assert Split(Join(fs, sep), sep) == [fs[0]] + Split(Join(tail, sep), sep) by {
        SplitJoinCons(fs, sep);
      }
      ConsPrefix(fs, k, rest);
    }
  }

  lemma ConsPrefix(fs: seq<string>, k: nat, rest: seq<string>)
    requires 1 <= k <= |fs|
    ensures [fs[0]] + (fs[1..][..k - 1] + rest) == fs[..k] + rest
  {
    assert [fs[0]] + fs[1..][..k - 1] == fs[..k];
  }

  /** A separator-free first field splits off as it is. */
  lemma SplitJoinCons(fs: seq<string>, sep: char)
    requires |fs| >= 2 && sep !in fs[0]
    ensures Split(Join(fs, sep), sep) == [fs[0]] + Split(Join(fs[1..], sep), sep)
  {
    var j := Join(fs[1..], sep);
    assert Join(fs, sep) == fs[0] + ([sep] + j);
    SplitSep(j, sep);
    SplitPrefix(fs[0], [sep] + j, sep);
    assert fs[0] + "" == fs[0];
  }

  /** A leading separator splits off an empty first field. */
  lemma SplitSep(t: string, sep: char)
    ensures Split([sep] + t, sep) == [""] + Split(t, sep)
  {
    assert ([sep] + t)[1..] == t;
  }

  predicate IsDigit(c: char) {
    '0' <= c <= '9'
  }

  predicate AllDigits(s: string) {
    forall i :: 0 <= i < |s| ==> IsDigit(s[i])
  }

  function DigitChar(d: nat): (c: char)
    requires d < 10
    ensures IsDigit(c)
  {
    ('0' as int + d) as char
  }

  /** `str(n)` for a natural number: its decimal digits, most significant first. */
  function NatToString(n: nat): (s: string)
    ensures |s| >= 1 && AllDigits(s)
    decreases n
  {
    if n < 10 then [DigitChar(n)] else NatToString(n / 10) + [DigitChar(n % 10)]
  }

  /** `str(i)`: a minus sign before the digits of a negative number. */
  function IntToString(i: int): (s: string)
    ensures |s| >= 1
    ensures (s[0] == '-') == (i < 0)
    ensures AllDigits(if i < 0 then s[1..] else s) && |if i < 0 then s[1..] else s| >= 1
    ensures forall k :: 0 <= k < |s| ==> s[k] == '-' || IsDigit(s[k])
  {
    if i < 0 then "-" + NatToString(-i) else NatToString(i)
  }

  /** The number a string of decimal digits denotes. */
  function DigitsValue(s: string): nat
    requires AllDigits(s)
    decreases |s|
  {
    if |s| == 0 then 0
    else DigitsValue(s[..|s| - 1]) * 10 + (s[|s| - 1] as int - '0' as int)
  }

  /** `int(s)` on an optional minus sign followed by at least one digit; `None` where Python raises. */
  function ParseInt(s: string): (r: Option<int>)
    ensures r.Some? <==> (|s| >= 1 && AllDigits(s)) || (|s| >= 2 && s[0] == '-' && AllDigits(s[1..]))
    ensures r.Some? && s[0] != '-' ==> r.value >= 0
    ensures r.Some? && s[0] == '-' ==> r.value <= 0
  {
    if |s| > 1 && s[0] == '-' && AllDigits(s[1..]) then Some(-(DigitsValue(s[1..]) as int))
    else if |s| > 0 && AllDigits(s) then Some(DigitsValue(s))
    else None
  }

  lemma {:induction false} NatRoundTrip(n: nat)
    ensures DigitsValue(NatToString(n)) == n
    decreases n
  {
    if n >= 10 {
      NatRoundTrip(n / 10);
      var s := NatToString(n);
      assert s[..|s| - 1] == NatToString(n / 10);
    }
  }

  /** `int(str(i)) == i` for every integer. */
  lemma IntRoundTrip(i: int)
    ensures ParseInt(IntToString(i)) == Some(i)
  {
    if i < 0 {
      NatRoundTrip(-i);
      assert IntToString(i)[1..] == NatToString(-i);
    } else {
      NatRoundTrip(i);
    }
  }
}
