/** String helpers with the semantics of the JavaScript operations the program uses. */
module Strings {
  import opened Wrappers

  predicate HasPrefix(s: string, p: string) {
    |p| <= |s| && s[..|p|] == p
  }

  /** `t` occurs in `s` starting at index `i`. */
  predicate OccursAt(s: string, t: string, i: int) {
    0 <= i && i + |t| <= |s| && s[i..i + |t|] == t
  }

  /** `s.includes(t)`. */
  predicate Contains(s: string, t: string)
    decreases |s|
  {
    HasPrefix(s, t) || (|s| > 0 && Contains(s[1..], t))
  }

  /** An occurrence at any index makes `Contains` hold. */
  lemma {:induction false} OccursAtContains(s: string, t: string, i: int)
    requires OccursAt(s, t, i)
    ensures Contains(s, t)
    decreases i
  {
    if i > 0 {
      assert s[1..][i - 1..i - 1 + |t|] == s[i..i + |t|];
      OccursAtContains(s[1..], t, i - 1);
    } else {
      assert s[..|t|] == t;
    }
  }

  /** `Contains` finds an occurrence at some index. */
  lemma {:induction false} ContainsOccurs(s: string, t: string)
    requires Contains(s, t)
    ensures exists i :: OccursAt(s, t, i)
    decreases |s|
  {
    if HasPrefix(s, t) {
      assert s[0..|t|] == s[..|t|];
      assert OccursAt(s, t, 0);
    } else {
      ContainsOccurs(s[1..], t);
      var i :| OccursAt(s[1..], t, i);
      assert s[i + 1..i + 1 + |t|] == s[1..][i..i + |t|];
      assert OccursAt(s, t, i + 1);
    }
  }

  /** `Contains` holds exactly when some index carries an occurrence. */
  lemma ContainsIff(s: string, t: string)
    ensures Contains(s, t) <==> exists i :: OccursAt(s, t, i)
  {
    if Contains(s, t) {
      ContainsOccurs(s, t);
    }
    if exists i :: OccursAt(s, t, i) {
      var i :| OccursAt(s, t, i);
      OccursAtContains(s, t, i);
    }
  }

  // ---- decimal numbers, as `String(n)` and `${n}` write an integer ----

  function DigitChar(d: nat): char
    requires d < 10
  {
    "0123456789"[d]
  }

  function DigitValue(c: char): Option<nat> {
    if '0' <= c <= '9' then Some(c as int - '0' as int) else None
  }

  function NatToString(n: nat): (r: string)
    ensures |r| > 0
    ensures forall k :: 0 <= k < |r| ==> DigitValue(r[k]).Some?
    decreases n
  {
    if n < 10 then [DigitChar(n)] else NatToString(n / 10) + [DigitChar(n % 10)]
  }

  /** `String(n)` for an integer `n`. */
  function IntToString(n: int): string {
    if n < 0 then "-" + NatToString(-n) else NatToString(n)
  }

  /** Reads a non-empty run of decimal digits. */
  function ParseNat(s: string): Option<nat>
    decreases |s|
  {
    if s == [] then None
    else if |s| == 1 then DigitValue(s[0])
    else
      match (ParseNat(s[..|s| - 1]), DigitValue(s[|s| - 1]))
      case (Some(p), Some(d)) => Some(p * 10 + d)
      case _ => None
  }

  /** Reads an optionally negative decimal integer. */
  function ParseInt(s: string): Option<int> {
    if |s| > 0 && s[0] == '-' then
      match ParseNat(s[1..])
      case Some(n) => Some(-(n as int))
      case None => None
    else
      match ParseNat(s)
      case Some(n) => Some(n)
      case None => None
  }

  lemma DigitRoundTrip(d: nat)
    requires d < 10
    ensures DigitValue(DigitChar(d)) == Some(d)
  {
  }

  lemma {:induction false} ParseNatToString(n: nat)
    ensures ParseNat(NatToString(n)) == Some(n)
    decreases n
  {
    if n < 10 {
      DigitRoundTrip(n);
    } else {
      ParseNatToString(n / 10);
      DigitRoundTrip(n % 10);
      var s := NatToString(n);
      assert s == NatToString(n / 10) + [DigitChar(n % 10)];
      assert s[..|s| - 1] == NatToString(n / 10);
      assert (n / 10) * 10 + n % 10 == n;
    }
  }

  lemma ParseNegativeToString(n: int)
    requires n < 0
    ensures ParseInt(IntToString(n)) == Some(n)
  {
    var m: nat := -n;
    var t := NatToString(m);
    ParseNatToString(m);
    var s := "-" + t;
    assert s[0] == '-' && s[1..] == t;
    assert IntToString(n) == s;
  }

  lemma ParseNonNegativeToString(n: nat)
    ensures ParseInt(IntToString(n)) == Some(n)
  {
    ParseNatToString(n);
    var s := NatToString(n);
    assert DigitValue(s[0]).Some?;
    assert s[0] != '-';
  }

  /** Writing an integer in decimal loses nothing: it reads back as the same integer. */
  lemma ParseIntToString(n: int)
    ensures ParseInt(IntToString(n)) == Some(n)
  {
    if n < 0 {
      ParseNegativeToString(n);
    } else {
      ParseNonNegativeToString(n);
    }
  }
}
