/** Store-native object ids: 24 lower-case hexadecimal characters, as
    `str(ObjectId)` prints them. */
module Ids {
  import opened Wrappers
  import Text

  predicate IsHexDigit(c: char) {
    Text.IsDigit(c) || ('a' <= c <= 'f') || ('A' <= c <= 'F')
  }

  predicate IsLowerHexDigit(c: char) {
    Text.IsDigit(c) || ('a' <= c <= 'f')
  }

  /** The printed form of an ObjectId. */
  predicate IsObjectId(s: string) {
    |s| == 24 && forall i :: 0 <= i < |s| ==> IsLowerHexDigit(s[i])
  }

  type ObjectId = s: string | IsObjectId(s) witness "000000000000000000000000"

  /** `ObjectId(s)` for a string argument: 24 hexadecimal digits of either case
      are accepted, anything else raises; the id prints in lower case. */
  function ParseObjectId(s: string): (r: Result<ObjectId, Error>)
    ensures r.Ok? <==> |s| == 24 && forall i :: 0 <= i < |s| ==> IsHexDigit(s[i])
    ensures r.Ok? ==> r.value == Text.Lower(s)
    ensures r.Err? ==> r.error == InvalidId(s)
  {
    if |s| == 24 && forall i :: 0 <= i < |s| ==> IsHexDigit(s[i]) then
      var l := Text.Lower(s);
      assert IsObjectId(l);
      Ok(l)
    else Err(InvalidId(s))
  }

  /** Printing an id and parsing it back gives the same id. */
  lemma ParsePrintedId(id: ObjectId)
    ensures ParseObjectId(id) == Ok(id)
  {
    assert Text.Lower(id) == id;
  }

  /** Two paths built from ids agree on a leading "/" + id segment only when
      the ids are equal: the fixed width makes a bare prefix test exact. */
  lemma FixedWidthSegment(a: ObjectId, b: ObjectId, rest: string)
    requires Text.StartsWith("/" + b + rest, "/" + a)
    ensures a == b
  {
    assert ("/" + a)[1..] == a;
    assert ("/" + b + rest)[1..25] == b;
  }
}
