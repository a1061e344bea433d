/** The string operations the bot relies on: decimal rendering of integers
    (Python's `str` on an `int`), parsing it back, locating the last
    occurrence of a character, and `sep.join(parts)`. */
module Text {
  import opened Optional
  import opened Sequences

  predicate IsDigit(c: char) {
    '0' <= c <= '9'
  }

  predicate AllDigits(s: string) {
    forall i | 0 <= i < |s| :: IsDigit(s[i])
  }

  function DigitValue(c: char): (d: nat)
    requires IsDigit(c)
    ensures d < 10
  {
    c as int - '0' as int
  }

  function DigitChar(d: nat): (c: char)
    requires d < 10
    ensures IsDigit(c) && DigitValue(c) == d
  {
    ('0' as int + d) as char
  }

  /** Decimal digits of `n`, most significant first, without leading zeros. */
  function NatToString(n: nat): (s: string)
    ensures |s| >= 1 && AllDigits(s)
    decreases n
  {
    if n < 10 then [DigitChar(n)] else NatToString(n / 10) + [DigitChar(n % 10)]
  }

  /** The value of a string of decimal digits (the empty string reads as 0). */
  function ParseNat(s: string): nat
    requires AllDigits(s)
    decreases |s|
  {
    if s == [] then 0 else 10 * ParseNat(s[..|s| - 1]) + DigitValue(s[|s| - 1])
  }

  /** Reading back a rendered natural number gives the number. */
  lemma {:induction false} ParseNatToString(n: nat)
    ensures ParseNat(NatToString(n)) == n
    decreases n
  {
    if n >= 10 {
      var s := NatToString(n);
      assert s[..|s| - 1] == NatToString(n / 10);
      ParseNatToString(n / 10);
    }
  }

  /** Python's `str` on an `int`: a leading '-' for negative values. */
  function IntToString(i: int): (s: string)
    ensures i >= 0 ==> s == NatToString(i)
    ensures i < 0 ==> s == "-" + NatToString(-i)
  {
    if i < 0 then "-" + NatToString(-i) else NatToString(i)
  }

  /** The position of the last `c` in `s`, if any. */
  function LastIndexOf(s: string, c: char): (r: Option<nat>)
    ensures r.Some? ==> r.value < |s| && s[r.value] == c
    ensures r.Some? ==> forall j | r.value < j < |s| :: s[j] != c
    ensures r.None? ==> forall j | 0 <= j < |s| :: s[j] != c
    decreases |s|
  {
    if s == [] then None
    else if s[|s| - 1] == c then Some(|s| - 1)
    else LastIndexOf(s[..|s| - 1], c)
  }

  /** Sum of the lengths of `parts`. */
  function TotalChars(parts: seq<string>): nat
    decreases |parts|
  {
    if parts == [] then 0 else TotalChars(parts[..|parts| - 1]) + |parts[|parts| - 1]|
  }

  /** Python's `sep.join(parts)`. */
  function Join(sep: string, parts: seq<string>): (r: string)
    ensures parts == [] ==> r == ""
    ensures parts != [] ==> |r| == TotalChars(parts) + |sep| * (|parts| - 1)
    ensures parts != [] ==> parts[0] <= r
    ensures parts != [] ==> r[|r| - |parts[|parts| - 1]|..] == parts[|parts| - 1]
    decreases |parts|
  {
    if parts == [] then ""
    else if |parts| == 1 then parts[0]
    else Join(sep, parts[..|parts| - 1]) + sep + parts[|parts| - 1]
  }

  /** Joining one more part after non-empty `parts` adds a separator and the part. */
  lemma JoinSnoc(sep: string, parts: seq<string>, x: string)
    requires parts != []
    ensures Join(sep, parts + [x]) == Join(sep, parts) + sep + x
  {
    assert (parts + [x])[..|parts|] == parts;
  }

  /** One inductive step of `JoinAppend`: extending `b` by one part. */
  lemma JoinAppendStep(sep: string, a: seq<string>, init: seq<string>, last: string)
    requires a != [] && init != []
    ensures Join(sep, a + init) == Join(sep, a) + sep + Join(sep, init) ==>
              Join(sep, (a + init) + [last]) == Join(sep, a) + sep + Join(sep, init + [last])
  {
    JoinSnoc(sep, a + init, last);
    JoinSnoc(sep, init, last);
    var x, y := Join(sep, a), Join(sep, init);
    ConcatAssociative(x + sep, y, sep);
    ConcatAssociative(x + sep, y + sep, last);
  }

  /** Joining two non-empty lists of parts is joining each and putting one separator between. */
  lemma {:induction false} JoinAppend(sep: string, a: seq<string>, b: seq<string>)
    requires a != [] && b != []
    ensures Join(sep, a + b) == Join(sep, a) + sep + Join(sep, b)
    decreases |b|
  {
    var init, last := b[..|b| - 1], b[|b| - 1];
    assert b == init + [last];
    if init == [] {
      assert b == [last];
      JoinSnoc(sep, a, last);
    } else {
      assert a + b == (a + init) + [last];
      JoinAppend(sep, a, init);
      JoinAppendStep(sep, a, init, last);
    }
  }
}
