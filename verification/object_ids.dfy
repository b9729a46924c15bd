/**
  MongoDB object identifiers as the service sees them: a 12-byte value that
  travels as a 24-digit hexadecimal string. Only the validity of the textual
  form is modelled; the byte value is identified with its canonical
  (lower-case) spelling, so each identifier has exactly one representation.
 */
module ObjectIds {
  import opened Wrappers

  /** Twelve bytes, two hex digits each. */
  const HexIdLength: nat := 24

  predicate IsLowerHexDigit(c: char) {
    '0' <= c <= '9' || 'a' <= c <= 'f'
  }

  predicate IsHexDigit(c: char) {
    IsLowerHexDigit(c) || 'A' <= c <= 'F'
  }

  /** The strings ObjectIDFromHex accepts: exactly 24 hex digits, in either case. */
  predicate IsHexId(s: string) {
    |s| == HexIdLength && forall i :: 0 <= i < |s| ==> IsHexDigit(s[i])
  }

  /** The strings ObjectID.Hex produces: 24 lower-case hex digits. */
  predicate IsCanonical(s: string) {
    |s| == HexIdLength && forall i :: 0 <= i < |s| ==> IsLowerHexDigit(s[i])
  }

  /** An object identifier, held as its canonical spelling. */
  type ObjectId = s: string | IsCanonical(s) witness "000000000000000000000000"

  function LowerDigit(c: char): (d: char) {
    if 'A' <= c <= 'F' then (c as int - 'A' as int + 'a' as int) as char else c
  }

  function Lower(s: string): (t: string) {
    seq(|s|, i requires 0 <= i < |s| => LowerDigit(s[i]))
  }

  /** ObjectID.Hex: the identifier's 24-digit lower-case spelling. */
  function Hex(o: ObjectId): (s: string)
    ensures IsHexId(s)
    ensures IsCanonical(s)
  {
    o
  }

  /**
    primitive.ObjectIDFromHex: a well-formed string names the identifier whose
    canonical spelling is the string in lower case; anything else is rejected.
   */
  function FromHex(s: string): (r: Option<ObjectId>)
    ensures r.Some? <==> IsHexId(s)
    ensures r.Some? ==> |Hex(r.value)| == |s| && forall i :: 0 <= i < |s| ==> Hex(r.value)[i] == LowerDigit(s[i])
  {
    if IsHexId(s) then Some(Lower(s)) else None
  }

  /** Printing an identifier and parsing the text back yields the same identifier. */
  lemma HexRoundTrip(o: ObjectId)
    ensures FromHex(Hex(o)) == Some(o)
  {
    assert Lower(o) == o;
  }

  /** Two spellings that differ only in the case of their letters name the same identifier. */
  lemma FromHexIgnoresCase(s: string, t: string)
    requires IsHexId(s) && IsHexId(t)
    requires forall i :: 0 <= i < |s| ==> LowerDigit(s[i]) == LowerDigit(t[i])
    ensures FromHex(s) == FromHex(t)
  {
    assert Lower(s) == Lower(t);
  }
}
