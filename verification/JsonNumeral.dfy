/** The numbers that the parser takes, written out: sign, digits with at most one point, exponent. */
module JsonNumeral {
  import opened Common
  import opened JsonText

  predicate DigitsIn(t: Bytes, i: nat, j: nat) {
    i <= j <= |t| && forall k :: i <= k < j ==> 48 <= t[k] <= 57
  }

  predicate SignIn(t: Bytes, i: nat, j: nat) {
    i <= j <= |t| && (j == i || (j == i + 1 && (t[i] == 43 || t[i] == 45)))
  }

  /** Digits from s to a, perhaps a point, then digits from p to b; at least one digit. */
  predicate MantissaIn(t: Bytes, s: nat, a: nat, p: nat, b: nat) {
    && DigitsIn(t, s, a) && DigitsIn(t, p, b) && (s < a || p < b)
    && (p == b == a || (p == a + 1 && t[a] == 46))
  }

  /** Nothing, or the letter e, perhaps a sign, and at least one digit from q on. */
  predicate ExponentIn(t: Bytes, b: nat, q: nat) {
    && b <= |t|
    && (b == |t| || ((t[b] == 69 || t[b] == 101) && SignIn(t, b + 1, q) && DigitsIn(t, q, |t|) && q < |t|))
  }

  ghost predicate IsNumeral(t: Bytes) {
    exists s, a, p, b, q :: SignIn(t, 0, s) && MantissaIn(t, s, a, p, b) && ExponentIn(t, b, q)
  }

  lemma {:induction false} DigitsRun(t: Bytes, p: nat, e: nat)
    requires DigitsIn(t, p, e) && (e < |t| ==> !IsDigit(t[e]))
    ensures DigitsEnd(t, p) == e
    decreases e - p
  {
    if p < e {
      DigitsRun(t, p + 1, e);
    }
  }

  lemma {:induction false} DigitsRead(t: Bytes, p: nat)
    requires p <= |t|
    ensures DigitsIn(t, p, DigitsEnd(t, p)) && (DigitsEnd(t, p) < |t| ==> !IsDigit(t[DigitsEnd(t, p)]))
    decreases |t| - p
  {
    if p < |t| && IsDigit(t[p]) {
      DigitsRead(t, p + 1);
    }
  }

  lemma NumeralIsRead(t: Bytes, s: nat, a: nat, p: nat, b: nat, q: nat)
    requires SignIn(t, 0, s) && MantissaIn(t, s, a, p, b) && ExponentIn(t, b, q)
    ensures HasMantissa(t) && StrtodLength(t) == |t|
    ensures forall i :: 0 <= i < |t| ==> IsNumberByte(t[i])
  {
    hide DigitsEnd;
    DigitsRun(t, s, a);
    DigitsRun(t, p, b);
    if b < |t| {
      DigitsRun(t, q, |t|);
    }
  }

  lemma ReadIsNumeral(t: Bytes)
    requires HasMantissa(t) && StrtodLength(t) == |t|
    ensures IsNumeral(t)
  {
    hide DigitsEnd;
    var s := SignEnd(t, 0);
    var a, b := DigitsEnd(t, s), MantissaEnd(t);
    var p := if a < |t| && t[a] == 46 then a + 1 else a;
    DigitsRead(t, s);
    DigitsRead(t, p);
    assert MantissaIn(t, s, a, p, b);
    var q := if b < |t| then SignEnd(t, b + 1) else b;
    DigitsRead(t, q);
    assert SignIn(t, 0, s) && ExponentIn(t, b, q);
  }

  /** A text is taken for one whole number exactly if it is a numeral of at most 63 bytes that begins
      with a minus or a digit. */
  lemma NumbersExactly(t: Bytes)
    ensures IsNumberText(t) <==> IsNumeral(t) && |t| <= 63 && t != [] && (t[0] == 45 || 48 <= t[0] <= 57)
  {
    hide StrtodLength, HasMantissa;
    if IsNumeral(t) {
      var s, a, p, b, q :| SignIn(t, 0, s) && MantissaIn(t, s, a, p, b) && ExponentIn(t, b, q);
      NumeralIsRead(t, s, a, p, b, q);
    }
    if IsNumberText(t) {
      NoMantissa(t);
      ReadIsNumeral(t);
    }
  }

  lemma NoMantissa(t: Bytes)
    ensures StrtodLength(t) > 0 ==> HasMantissa(t)
  {
  }
}
