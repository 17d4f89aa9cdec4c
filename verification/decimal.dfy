/** Rust's `str::parse::<usize>()` on the firmware's 32-bit target, over the bytes of the text. */
module Decimal {
  import opened Base

  /** `usize::MAX` on the RISC-V 32-bit target (`usize` is 32 bits wide there). */
  const UsizeMax: nat := 0xFFFF_FFFF

  const Plus: Byte := 0x2B

  /** ASCII `0` .. `9`. */
  predicate IsDigit(b: Byte) {
    0x30 <= b as int <= 0x39
  }

  /** The ASCII byte of a decimal digit. */
  function DigitByte(d: nat): (b: Byte)
    requires d < 10
    ensures IsDigit(b) && b as int - 0x30 == d
  {
    (0x30 + d) as Byte
  }

  predicate AllDigits(ds: seq<Byte>) {
    forall i :: 0 <= i < |ds| ==> IsDigit(ds[i])
  }

  function DigitValue(b: Byte): (r: nat)
    requires IsDigit(b)
    ensures r < 10
  {
    b as int - 0x30
  }

  /** The number a run of decimal digits denotes, most significant digit first. */
  function DigitsValue(ds: seq<Byte>): nat
    requires AllDigits(ds)
  {
    if ds == [] then 0
    else DigitsValue(ds[..|ds| - 1]) * 10 + DigitValue(ds[|ds| - 1])
  }

  /** The digits after the optional leading `+` sign (a lone `+` leaves nothing). */
  function Unsigned(text: seq<Byte>): seq<Byte> {
    if |text| > 0 && text[0] == Plus then text[1..] else text
  }

  /** What the parser accepts: an optional `+`, then one or more ASCII digits (leading zeros allowed). */
  predicate Syntax(text: seq<Byte>) {
    var ds := Unsigned(text);
    |ds| > 0 && AllDigits(ds)
  }

  /**
   * `usize::from_str`: `None` for an empty text, a lone sign, a `-`, any non-digit
   * and any value above `usize::MAX`. Every text it accepts is ASCII, so the
   * `from_utf8` check the firmware applies first never changes the outcome.
   */
  function ParseUsize(text: seq<Byte>): (r: Option<nat>)
    ensures r.Some? <==> Syntax(text) && DigitsValue(Unsigned(text)) <= UsizeMax
    ensures r.Some? ==> r.value == DigitsValue(Unsigned(text)) && r.value <= UsizeMax
    // whatever is accepted is the canonical rendering of its value, behind an
    // optional sign and leading zeros (the converse of `ParseRender`)
    ensures r.Some? ==> exists k: nat :: Unsigned(text) == Zeros(k) + Render(r.value)
  {
    var ds := Unsigned(text);
    if |ds| == 0 || !AllDigits(ds) then None
    else
      var v := DigitsValue(ds);
      DigitsAreRendering(ds);
      if v <= UsizeMax then Some(v) else None
  }

  /** The canonical decimal rendering of `n`: no sign, no leading zeros. */
  function Render(n: nat): (r: seq<Byte>)
    ensures |r| > 0 && AllDigits(r)
  {
    if n < 10 then [DigitByte(n)]
    else Render(n / 10) + [DigitByte(n % 10)]
  }

  /** `k` ASCII zeros. */
  function Zeros(k: nat): (r: seq<Byte>)
    ensures |r| == k && AllDigits(r)
    ensures forall i :: 0 <= i < k ==> r[i] == DigitByte(0)
  {
    seq(k, _ => DigitByte(0))
  }

  lemma {:induction false} RenderValue(n: nat)
    ensures DigitsValue(Render(n)) == n
  {
    var r := Render(n);
    if n >= 10 {
      var prefix := Render(n / 10);
      assert r[..|r| - 1] == prefix;
      RenderValue(n / 10);
    }
  }

  /** Leading zeros do not change the value of a run of digits. */
  lemma {:induction false} ZerosValue(k: nat, ds: seq<Byte>)
    requires AllDigits(ds)
    ensures DigitsValue(Zeros(k) + ds) == DigitsValue(ds)
    decreases |ds|, k
  {
    var zs := Zeros(k) + ds;
    if ds == [] {
      assert zs == Zeros(k);
      if k > 0 {
        assert zs[..|zs| - 1] == Zeros(k - 1) + [];
        ZerosValue(k - 1, []);
      }
    } else {
      var init := ds[..|ds| - 1];
      assert zs[..|zs| - 1] == Zeros(k) + init;
      ZerosValue(k, init);
    }
  }

  /** The last digit of a rendering is the value's last decimal digit. */
  lemma RenderStep(p: nat, d: nat)
    requires 0 < p && d < 10
    ensures Render(p * 10 + d) == Render(p) + [DigitByte(d)]
  {
    DivTen(p, d);
  }

  /** Integer division by ten recovers the digits before the last. */
  lemma DivTen(p: nat, d: nat)
    requires d < 10
    ensures (p * 10 + d) / 10 == p && (p * 10 + d) % 10 == d
  {
    var v := p * 10 + d;
    var q, r := v / 10, v % 10;
    assert v == q * 10 + r && 0 <= r < 10;
    assert (q - p) * 10 == d - r;
  }

  /** A digit byte is the byte of its own value. */
  lemma DigitRoundTrip(b: Byte)
    requires IsDigit(b)
    ensures DigitByte(DigitValue(b)) == b
  {
  }

  /** One more leading zero. */
  lemma ZerosSnoc(j: nat)
    ensures Zeros(j) + [DigitByte(0)] == Zeros(j + 1)
  {
  }

  /** The value of a run of digits, split at its last digit. */
  lemma ValueSplit(ds: seq<Byte>)
    requires |ds| > 0 && AllDigits(ds)
    ensures ds == ds[..|ds| - 1] + [DigitByte(DigitValue(ds[|ds| - 1]))]
    ensures AllDigits(ds[..|ds| - 1])
    ensures DigitsValue(ds) == DigitsValue(ds[..|ds| - 1]) * 10 + DigitValue(ds[|ds| - 1])
  {
    DigitRoundTrip(ds[|ds| - 1]);
  }

  /** The leading-zero count that puts a non-empty run of digits in front of the rendering of its value. */
  lemma {:induction false} LeadingZeros(ds: seq<Byte>) returns (k: nat)
    requires |ds| > 0 && AllDigits(ds)
    ensures ds == Zeros(k) + Render(DigitsValue(ds))
    decreases |ds|
  {
    var init := ds[..|ds| - 1];
    var d := DigitValue(ds[|ds| - 1]);
    ValueSplit(ds);
    if init == [] {
      k := 0;
      assert DigitsValue(ds) == d;
    } else {
      var j := LeadingZeros(init);
      var p := DigitsValue(init);
      if p == 0 {
        k := j + 1;
        ZerosSnoc(j);
        assert DigitsValue(ds) == d;
        assert ds == (Zeros(j) + [DigitByte(0)]) + [DigitByte(d)];
      } else {
        k := j;
        RenderStep(p, d);
        assert ds == Zeros(j) + (Render(p) + [DigitByte(d)]);
      }
    }
  }

  /** Every non-empty run of digits is the rendering of its value behind some leading zeros. */
  lemma DigitsAreRendering(ds: seq<Byte>)
    requires |ds| > 0 && AllDigits(ds)
    ensures exists k: nat :: ds == Zeros(k) + Render(DigitsValue(ds))
  {
    var k := LeadingZeros(ds);
  }

  /**
   * Round trip: every `usize` value written in decimal, with or without
   * leading zeros, parses back to itself.
   */
  lemma ParseRender(n: nat, k: nat)
    requires n <= UsizeMax
    ensures ParseUsize(Zeros(k) + Render(n)) == Some(n)
  {
    RenderValue(n);
    ZerosValue(k, Render(n));
  }

  /** A leading `+` is accepted and ignored. */
  lemma ParseSignedRender(n: nat, k: nat)
    requires n <= UsizeMax
    ensures ParseUsize([Plus] + Zeros(k) + Render(n)) == Some(n)
  {
    assert Unsigned([Plus] + Zeros(k) + Render(n)) == Zeros(k) + Render(n);
    RenderValue(n);
    ZerosValue(k, Render(n));
  }

  /** Values beyond `usize::MAX` are rejected, so such a header is skipped rather than wrapped. */
  lemma ParseRejectsOverflow(n: nat, k: nat)
    requires n > UsizeMax
    ensures ParseUsize(Zeros(k) + Render(n)) == None
    ensures ParseUsize([Plus] + Zeros(k) + Render(n)) == None
  {
    assert Unsigned([Plus] + Zeros(k) + Render(n)) == Zeros(k) + Render(n);
    RenderValue(n);
    ZerosValue(k, Render(n));
  }
}
