/** Constraint labels: the f-strings of the constraint generators, with
    indices written in decimal. */
module Labels {

  function Digit(d: nat): (c: char)
    requires d < 10
    ensures '0' <= c <= '9'
  {
    (48 + d) as char
  }

  /** Python's `str` of a non-negative integer. */
  function NatToString(n: nat): (s: string)
    ensures |s| >= 1 && forall k :: 0 <= k < |s| ==> '0' <= s[k] <= '9'
  {
    if n < 10 then [Digit(n)] else NatToString(n / 10) + [Digit(n % 10)]
  }

  /** Python's `int` of a string of decimal digits. */
  function ParseNat(s: string): nat
    requires forall k :: 0 <= k < |s| ==> '0' <= s[k] <= '9'
  {
    if s == [] then 0 else ParseNat(s[..|s| - 1]) * 10 + (s[|s| - 1] as int - 48)
  }

  /** Reading an index back from its decimal form gives the index. */
  lemma {:induction false} ParseNatToString(n: nat)
    ensures ParseNat(NatToString(n)) == n
  {
    var s := NatToString(n);
    if n >= 10 {
      ParseNatToString(n / 10);
      assert s[..|s| - 1] == NatToString(n / 10);
    }
  }

  /** Different indices get different decimal forms, so labels naming
      different indices differ. */
  lemma NatToStringInjective(a: nat, b: nat)
    requires NatToString(a) == NatToString(b)
    ensures a == b
  {
    ParseNatToString(a);
    ParseNatToString(b);
  }

  /** `f'{label} - event: {event}'` */
  function EventLabel(text: string, e: nat): string {
    text + " - event: " + NatToString(e)
  }

  /** `f'{label} - slot: {slot}'` */
  function SlotLabel(text: string, s: nat): string {
    text + " - slot: " + NatToString(s)
  }

  /** `f'{label} - event: {row}, slot: {col}'` */
  function EventSlotLabel(text: string, e: nat, s: nat): string {
    text + " - event: " + NatToString(e) + ", slot: " + NatToString(s)
  }

  /** `f'{label} - event: {row} and event: {col}'` */
  function EventPairLabel(text: string, e: nat, f: nat): string {
    text + " - event: " + NatToString(e) + " and event: " + NatToString(f)
  }

  /** An event label names its event: the same text with different events
      gives different labels. */
  lemma EventLabelInjective(text: string, a: nat, b: nat)
    requires EventLabel(text, a) == EventLabel(text, b)
    ensures a == b
  {
    var p := text + " - event: ";
    assert EventLabel(text, a)[|p|..] == NatToString(a);
    assert EventLabel(text, b)[|p|..] == NatToString(b);
    NatToStringInjective(a, b);
  }
}
