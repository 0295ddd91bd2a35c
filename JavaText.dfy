/**
 * The two pieces of the Java library that the version comparison relies on:
 * `String.split("\\.")` and `Integer.parseInt`, as functions on `string`.
 */
module JavaText {
  import opened Wrappers

  const INT_MIN: int := -0x8000_0000
  const INT_MAX: int := 0x7FFF_FFFF

  /** Joins the parts with a dot between each two of them: the inverse of splitting. */
  function Join(parts: seq<string>): string
  {
    if |parts| == 0 then ""
    else if |parts| == 1 then parts[0]
    else parts[0] + "." + Join(parts[1..])
  }

  /** Splits on every dot and keeps every piece, empty ones included. */
  function RawSplit(s: string): (parts: seq<string>)
    ensures |parts| >= 1
    ensures forall k :: 0 <= k < |parts| ==> '.' !in parts[k]
  {
    if s == [] then [""]
    else if s[0] == '.' then [""] + RawSplit(s[1..])
    else
      var rest := RawSplit(s[1..]);
      [[s[0]] + rest[0]] + rest[1..]
  }

  /** Removes the empty strings at the end of `parts`. */
  function DropTrailingEmpty(parts: seq<string>): (r: seq<string>)
    ensures |r| <= |parts| && r == parts[..|r|]
    ensures |r| > 0 ==> r[|r| - 1] != ""
    ensures forall k :: |r| <= k < |parts| ==> parts[k] == ""
  {
    if |parts| > 0 && parts[|parts| - 1] == "" then DropTrailingEmpty(parts[..|parts| - 1])
    else parts
  }

  /**
   * `s.split("\\.")`: the pieces between dots, with trailing empty pieces removed;
   * a string without any dot (the empty string included) gives itself as the one piece.
   */
  function Split(s: string): (parts: seq<string>)
    ensures forall k :: 0 <= k < |parts| ==> '.' !in parts[k]
  {
    if s == [] then [""] else DropTrailingEmpty(RawSplit(s))
  }

  predicate IsDigit(c: char)
  {
    '0' <= c <= '9'
  }

  predicate AllDigits(s: string)
  {
    forall k :: 0 <= k < |s| ==> IsDigit(s[k])
  }

  /** The value of a string of decimal digits, most significant first. */
  function DigitsValue(s: string): nat
    requires AllDigits(s)
  {
    if s == [] then 0
    else DigitsValue(s[..|s| - 1]) * 10 + (s[|s| - 1] - '0') as nat
  }

  /**
   * `Integer.parseInt(s)`: an optional `-` or `+` followed by at least one digit, with the
   * value in the 32-bit range. Anything else raises NumberFormatException, modelled as None.
   */
  function ParseInt(s: string): (r: Option<int>)
    ensures r.Some? ==> INT_MIN <= r.value <= INT_MAX
    ensures r.Some? ==> s != [] && '.' !in s
  {
    if s == [] then None
    else if s[0] == '-' || s[0] == '+' then
      var digits := s[1..];
      if digits != [] && AllDigits(digits) then
        var n: int := DigitsValue(digits);
        if s[0] == '-' && n <= -INT_MIN then Some(-n)
        else if s[0] == '+' && n <= INT_MAX then Some(n)
        else None
      else None
    else if AllDigits(s) && DigitsValue(s) <= INT_MAX then Some(DigitsValue(s))
    else None
  }

  function DigitChar(d: nat): char
    requires d < 10
  {
    ('0' as int + d) as char
  }

  /** The decimal representation of `n`, without leading zeros. */
  function NatToString(n: nat): (s: string)
    ensures s != [] && AllDigits(s)
  {
    if n < 10 then [DigitChar(n)] else NatToString(n / 10) + [DigitChar(n % 10)]
  }

  /** `Integer.toString(n)`. */
  function IntToString(n: int): string
  {
    if n < 0 then "-" + NatToString(-n) else NatToString(n)
  }

  // ---------------------------------------------------------------- lemmas

  lemma {:induction false} JoinRawSplit(s: string)
    ensures Join(RawSplit(s)) == s
  {
    if s == [] {
    } else if s[0] == '.' {
      JoinRawSplit(s[1..]);
      assert RawSplit(s) == [""] + RawSplit(s[1..]);
      assert s == "." + s[1..];
    } else {
      var rest := RawSplit(s[1..]);
      JoinRawSplit(s[1..]);
      if |rest| == 1 {
        assert Join(RawSplit(s)) == [s[0]] + rest[0];
      } else {
        assert Join(RawSplit(s)) == [s[0]] + rest[0] + "." + Join(rest[1..]);
        assert Join(rest) == rest[0] + "." + Join(rest[1..]);
      }
      assert s == [s[0]] + s[1..];
    }
  }

  lemma {:induction false} RawSplitLastNonEmpty(s: string)
    requires s != [] && s[|s| - 1] != '.'
    ensures RawSplit(s)[|RawSplit(s)| - 1] != ""
  {
    if s[0] == '.' {
      RawSplitLastNonEmpty(s[1..]);
    } else if |s| > 1 {
      var rest := RawSplit(s[1..]);
      if |rest| > 1 {
        RawSplitLastNonEmpty(s[1..]);
      }
    }
  }

  /** Splitting a string that does not end with a dot loses nothing: joining the pieces gives it back. */
  lemma SplitJoin(s: string)
    requires s == [] || s[|s| - 1] != '.'
    ensures Join(Split(s)) == s
  {
    if s != [] {
      RawSplitLastNonEmpty(s);
      JoinRawSplit(s);
    }
  }

  /**
   * Joining dot-free pieces and splitting again gives the pieces back, empty middle pieces
   * included, as long as the last piece is nonempty or is the only one.
   */
  lemma {:induction false} JoinSplit(parts: seq<string>)
    requires |parts| >= 1
    requires forall k :: 0 <= k < |parts| ==> '.' !in parts[k]
    requires |parts| == 1 || parts[|parts| - 1] != ""
    ensures Split(Join(parts)) == parts
  {
    if parts[|parts| - 1] != "" {
      var s := Join(parts);
      JoinEndsWithLast(parts);
      RawSplitJoin(parts);
      RawSplitLastNonEmpty(s);
    }
  }

  lemma {:induction false} JoinEndsWithLast(parts: seq<string>)
    requires |parts| >= 1 && parts[|parts| - 1] != ""
    ensures Join(parts) != [] && Join(parts)[|Join(parts)| - 1] == parts[|parts| - 1][|parts[|parts| - 1]| - 1]
  {
    if |parts| > 1 {
      JoinEndsWithLast(parts[1..]);
    }
  }

  lemma {:induction false} RawSplitJoin(parts: seq<string>)
    requires |parts| >= 1
    requires forall k :: 0 <= k < |parts| ==> '.' !in parts[k]
    ensures RawSplit(Join(parts)) == parts
  {
    if |parts| == 1 {
      RawSplitNoDot(parts[0]);
    } else {
      RawSplitJoin(parts[1..]);
      RawSplitPrefix(parts[0], Join(parts[1..]));
      assert [parts[0]] + parts[1..] == parts;
    }
  }

  lemma {:induction false} RawSplitNoDot(s: string)
    requires '.' !in s
    ensures RawSplit(s) == [s]
  {
    if s != [] {
      RawSplitNoDot(s[1..]);
      assert [s[0]] + s[1..] == s;
    }
  }

  /** Splitting `w + "." + t`, where `w` has no dot, gives `w` followed by the pieces of `t`. */
  lemma {:induction false} RawSplitPrefix(w: string, t: string)
    requires '.' !in w
    ensures RawSplit(w + "." + t) == [w] + RawSplit(t)
  {
    var s := w + "." + t;
    if w == [] {
      assert s == "." + t;
      assert s[1..] == t;
    } else {
      assert s[0] == w[0];
      assert s[1..] == w[1..] + "." + t;
      RawSplitPrefix(w[1..], t);
      assert [w[0]] + w[1..] == w;
    }
  }

  lemma {:induction false} NatToStringValue(n: nat)
    ensures DigitsValue(NatToString(n)) == n
  {
    if n >= 10 {
      NatToStringValue(n / 10);
      var s := NatToString(n);
      assert s[..|s| - 1] == NatToString(n / 10);
    }
  }

  /** Integer.parseInt reads back every 32-bit integer from its decimal representation. */
  lemma ParseIntToString(n: int)
    requires INT_MIN <= n <= INT_MAX
    ensures ParseInt(IntToString(n)) == Some(n)
  {
    if n < 0 {
      NatToStringValue(-n);
      assert IntToString(n)[1..] == NatToString(-n);
    } else {
      NatToStringValue(n);
    }
  }
}
