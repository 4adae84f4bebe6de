/**
  Hexadecimal text as the editor produces and consumes it: byte cells and
  offset labels written as `n.toString(16).padStart(w, '0').toUpperCase()`,
  typed digits read back with `parseInt(_, 16)`, and the keystroke filter
  `replace(/[^0-9a-fA-F]/g, "")`.
*/
module Hex {

  import opened Wrappers

  predicate IsHexDigit(ch: char) {
    ('0' <= ch <= '9') || ('a' <= ch <= 'f') || ('A' <= ch <= 'F')
  }

  predicate IsUpperHexDigit(ch: char) {
    ('0' <= ch <= '9') || ('A' <= ch <= 'F')
  }

  predicate AllHex(s: string) {
    forall i :: 0 <= i < |s| ==> IsHexDigit(s[i])
  }

  predicate AllUpperHex(s: string) {
    forall i :: 0 <= i < |s| ==> IsUpperHexDigit(s[i])
  }

  function Pow16(k: nat): (p: nat)
    ensures p >= 1
  {
    if k == 0 then 1 else 16 * Pow16(k - 1)
  }

  /** The value of one hexadecimal digit, either case. */
  function DigitValue(ch: char): (v: nat)
    requires IsHexDigit(ch)
    ensures v < 16
  {
    if '0' <= ch <= '9' then ch as int - '0' as int
    else if 'a' <= ch <= 'f' then ch as int - 'a' as int + 10
    else ch as int - 'A' as int + 10
  }

  /** The digit `toString(16)` writes for `d`. */
  function LowerDigit(d: nat): (ch: char)
    requires d < 16
    ensures IsHexDigit(ch) && DigitValue(ch) == d
  {
    if d < 10 then ('0' as int + d) as char else ('a' as int + d - 10) as char
  }

  /** The upper-case digit for `d` (UpperDigitUnique: the only one of that value). */
  function UpperDigit(d: nat): (ch: char)
    requires d < 16
    ensures IsUpperHexDigit(ch) && IsHexDigit(ch) && DigitValue(ch) == d
  {
    if d < 10 then ('0' as int + d) as char else ('A' as int + d - 10) as char
  }

  /** An upper-case hex digit is the upper-case digit of its value. */
  lemma UpperDigitUnique(u: char)
    requires IsUpperHexDigit(u)
    ensures u == UpperDigit(DigitValue(u))
  {
  }

  /** `toUpperCase` on one hex digit. */
  function UpperChar(ch: char): (u: char)
    requires IsHexDigit(ch)
    ensures u == UpperDigit(DigitValue(ch))
  {
    if 'a' <= ch <= 'f' then (ch as int - 'a' as int + 'A' as int) as char else ch
  }

  /** `parseInt(s, 16)` on a string of hex digits (big-endian, either case). */
  function ParseHex(s: string): (v: nat)
    requires AllHex(s)
    ensures v < Pow16(|s|)
    decreases |s|
  {
    if s == [] then 0 else ParseHex(s[..|s| - 1]) * 16 + DigitValue(s[|s| - 1])
  }

  /**
    The editor's hex formatting of `n` in at least `w` digits, upper case,
    zero-padded: digit by digit from the least significant one.
    HexStringMatchesFormatting shows it is the `toString(16)`, `padStart`,
    `toUpperCase` chain of the source.
  */
  function HexString(n: nat, w: nat): (r: string)
    ensures AllHex(r) && AllUpperHex(r)
    decreases n + w
  {
    if n < 16 && w <= 1 then [UpperDigit(n)]
    else HexString(n / 16, if w > 0 then w - 1 else 0) + [UpperDigit(n % 16)]
  }

  /** `replace(/[^0-9a-fA-F]/g, "")`. */
  function FilterHex(s: string): (r: string)
    ensures AllHex(r) && |r| <= |s|
  {
    if s == [] then []
    else (if IsHexDigit(s[0]) then [s[0]] else []) + FilterHex(s[1..])
  }

  /** `toUpperCase` on a string of hex digits. */
  function Upper(s: string): (r: string)
    requires AllHex(s)
    ensures |r| == |s| && AllUpperHex(r) && AllHex(r)
    decreases |s|
  {
    if s == [] then [] else Upper(s[..|s| - 1]) + [UpperChar(s[|s| - 1])]
  }

  // ---------------------------------------------------------------------------
  // The formatting chain as the source writes it

  /** `n.toString(16)` for a non-negative integer: lower case, no leading zeros. */
  function ToHexLower(n: nat): (s: string)
    ensures 1 <= |s| && AllHex(s)
    decreases n
  {
    if n < 16 then [LowerDigit(n)] else ToHexLower(n / 16) + [LowerDigit(n % 16)]
  }

  function Repeat(ch: char, k: nat): (r: string)
    ensures |r| == k && forall i :: 0 <= i < k ==> r[i] == ch
  {
    seq(k, _ => ch)
  }

  /** `s.padStart(w, fill)`: never truncates. */
  function PadStart(s: string, w: nat, fill: char): (r: string)
    ensures |r| == Max(w, |s|) && r[|r| - |s|..] == s
    ensures forall i :: 0 <= i < |r| - |s| ==> r[i] == fill
  {
    if |s| >= w then s else Repeat(fill, w - |s|) + s
  }

  // ---------------------------------------------------------------------------
  // Properties

  /**
    What the editor prints for `n`: upper-case hex digits that parse back to
    `n`, at least `w` of them, and exactly `w` (or one, for `w == 0`) when
    `n < 16^w`.
  */
  lemma {:induction false} HexStringSpec(n: nat, w: nat)
    ensures ParseHex(HexString(n, w)) == n
    ensures |HexString(n, w)| >= w && |HexString(n, w)| >= 1
    ensures n < Pow16(w) ==> |HexString(n, w)| == Max(w, 1)
    decreases n + w
  {
    var r := HexString(n, w);
    if !(n < 16 && w <= 1) {
      var w' := if w > 0 then w - 1 else 0;
      var prefix := HexString(n / 16, w');
      assert r == prefix + [UpperDigit(n % 16)];
      assert r[..|r| - 1] == prefix;
      HexStringSpec(n / 16, w');
      if n < Pow16(w) {
        assert Pow16(1) == 16 && Pow16(0) == 1;
        assert w >= 2;
        assert n / 16 < Pow16(w');
      }
    } else {
      assert r[..0] == [];
    }
  }

  lemma UpperAppend(s: string, d: char)
    requires AllHex(s) && IsHexDigit(d)
    ensures AllHex(s + [d]) && Upper(s + [d]) == Upper(s) + [UpperChar(d)]
  {
    assert (s + [d])[..|s|] == s;
  }

  lemma PadStartAppend(s: string, d: char, w: nat, fill: char)
    requires w >= 1
    ensures PadStart(s + [d], w, fill) == PadStart(s, w - 1, fill) + [d]
  {
    if |s| + 1 < w {
      calc {
        PadStart(s + [d], w, fill);
        Repeat(fill, w - |s| - 1) + (s + [d]);
        { assert Repeat(fill, w - |s| - 1) + (s + [d]) == (Repeat(fill, w - 1 - |s|) + s) + [d]; }
        (Repeat(fill, w - 1 - |s|) + s) + [d];
        PadStart(s, w - 1, fill) + [d];
      }
    } else {
      assert PadStart(s + [d], w, fill) == s + [d];
      assert PadStart(s, w - 1, fill) == s;
    }
  }

  lemma PadStartZero(m: nat)
    requires m >= 1
    ensures PadStart("0", m, '0') == PadStart([], m, '0')
  {
    if m > 1 {
      assert Repeat('0', m - 1) + "0" == Repeat('0', m);
    }
  }

  /** Zero padding keeps text all hex digits. */
  lemma PadStartHex(s: string, w: nat)
    requires AllHex(s)
    ensures AllHex(PadStart(s, w, '0'))
  {
  }

  /** The digit-by-digit formatting equals `n.toString(16).padStart(w, '0').toUpperCase()`. */
  lemma {:induction false} HexStringMatchesFormatting(n: nat, w: nat)
    ensures AllHex(PadStart(ToHexLower(n), w, '0'))
    ensures HexString(n, w) == Upper(PadStart(ToHexLower(n), w, '0'))
    decreases n + w
  {
    PadStartHex(ToHexLower(n), w);
    if n < 16 && w <= 1 {
      assert PadStart(ToHexLower(n), w, '0') == [] + [LowerDigit(n)];
      UpperAppend([], LowerDigit(n));
    } else {
      var w' := if w > 0 then w - 1 else 0;
      HexStringMatchesFormatting(n / 16, w');
      FormattingStep(n, w);
    }
  }

  /** One digit of the induction above: the last digit is formatted alike by both. */
  lemma FormattingStep(n: nat, w: nat)
    requires !(n < 16 && w <= 1)
    requires var w' := if w > 0 then w - 1 else 0;
      AllHex(PadStart(ToHexLower(n / 16), w', '0')) &&
      HexString(n / 16, w') == Upper(PadStart(ToHexLower(n / 16), w', '0'))
    ensures AllHex(PadStart(ToHexLower(n), w, '0'))
    ensures HexString(n, w) == Upper(PadStart(ToHexLower(n), w, '0'))
  {
    var t := ToHexLower(n);
    PadStartHex(t, w);
    var w' := if w > 0 then w - 1 else 0;
    var d := LowerDigit(n % 16);
    var rest: string := if n >= 16 then ToHexLower(n / 16) else [];
    var padded := PadStart(rest, w', '0');
    assert PadStart(t, w, '0') == padded + [d] by {
      ToHexLowerLast(n);
      if w >= 1 {
        PadStartAppend(rest, d, w, '0');
      }
    }
    PadStartHex(rest, w');
    UpperAppend(padded, d);
    assert padded == PadStart(ToHexLower(n / 16), w', '0') by {
      if n < 16 {
        assert n / 16 == 0 && w' >= 1;
        assert ToHexLower(0) == "0";
        PadStartZero(w');
      }
    }
  }

  /** `toString(16)` ends with the digit of `n % 16`, after the digits of `n / 16` if any. */
  lemma ToHexLowerLast(n: nat)
    ensures ToHexLower(n) == (if n >= 16 then ToHexLower(n / 16) else []) + [LowerDigit(n % 16)]
  {
  }

  /** Upper-casing hex text does not change its value. */
  lemma {:induction false} UpperKeepsValue(s: string)
    requires AllHex(s)
    ensures ParseHex(Upper(s)) == ParseHex(s)
    decreases |s|
  {
    if s != [] {
      var r := Upper(s);
      assert r[..|r| - 1] == Upper(s[..|s| - 1]);
      UpperKeepsValue(s[..|s| - 1]);
    }
  }

  /** A number written with one more hex digit determines the digit and the rest. */
  lemma LastDigit(x: nat, dx: nat, y: nat, dy: nat)
    requires dx < 16 && dy < 16 && x * 16 + dx == y * 16 + dy
    ensures x == y && dx == dy
  {
    assert (x * 16 + dx) / 16 == x;
    assert (y * 16 + dy) / 16 == y;
  }

  /** Upper-case hex strings of one length are determined by their value. */
  lemma {:induction false} ParseHexInjective(a: string, b: string)
    requires |a| == |b| && AllHex(a) && AllHex(b) && AllUpperHex(a) && AllUpperHex(b)
    requires ParseHex(a) == ParseHex(b)
    ensures a == b
    decreases |a|
  {
    if a != [] {
      var n := |a| - 1;
      var da, db := DigitValue(a[n]), DigitValue(b[n]);
      assert ParseHex(a) == ParseHex(a[..n]) * 16 + da;
      assert ParseHex(b) == ParseHex(b[..n]) * 16 + db;
      LastDigit(ParseHex(a[..n]), da, ParseHex(b[..n]), db);
      assert a[n] == b[n] by {
        UpperDigitUnique(a[n]);
        UpperDigitUnique(b[n]);
      }
      ParseHexInjective(a[..n], b[..n]);
      assert a == a[..n] + [a[n]] && b == b[..n] + [b[n]];
    }
  }

  /**
    Two typed hex digits, upper-cased, are exactly what the editor renders for
    the byte they parse to (so committing a cell does not change its text),
    and that byte is always in [0, 255].
  */
  lemma CommitTextRoundTrip(s: string)
    requires |s| == 2 && AllHex(s)
    ensures ParseHex(s) <= 255
    ensures HexString(ParseHex(s), 2) == Upper(s)
  {
    assert Pow16(2) == 256;
    HexStringSpec(ParseHex(s), 2);
    UpperKeepsValue(s);
    ParseHexInjective(HexString(ParseHex(s), 2), Upper(s));
  }

  /** The filter keeps exactly the hex digits of its input. */
  lemma {:induction false} FilterHexMembers(s: string, ch: char)
    ensures ch in FilterHex(s) <==> ch in s && IsHexDigit(ch)
  {
    if s != [] {
      FilterHexMembers(s[1..], ch);
      assert s == [s[0]] + s[1..];
    }
  }

  /**
    The filter works character by character, in order: filtering a
    concatenation is filtering each part, and a single character is kept
    exactly when it is a hex digit.
  */
  lemma {:induction false} FilterHexAppend(s: string, t: string)
    ensures FilterHex(s + t) == FilterHex(s) + FilterHex(t)
  {
    if s != [] {
      assert (s + t)[1..] == s[1..] + t;
      FilterHexAppend(s[1..], t);
    } else {
      assert s + t == t;
    }
  }

  lemma FilterHexChar(c: char)
    ensures FilterHex([c]) == if IsHexDigit(c) then [c] else []
  {
    assert [c][1..] == [];
  }

  /** The filter leaves text that is already all hex digits alone, in order. */
  lemma {:induction false} FilterHexKeepsHex(s: string)
    requires AllHex(s)
    ensures FilterHex(s) == s
  {
    if s != [] {
      FilterHexKeepsHex(s[1..]);
    }
  }
}
