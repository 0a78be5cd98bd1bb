/** String helpers: `StringUtils.limitString`, and the character and string
    tests that `SemanticVersion` and `Assert` call (`isEmpty`,
    `containsWhiteSpace`, `hasLength`, `hasText`). Those four are defined by
    their names and the documentation of their callers. A Java `null` string
    is `None`. Characters are Unicode scalar values, not UTF-16 units. */
module StringUtils {
  import opened Machine
  import opened Outcomes

  /** Java's `Character.isWhitespace`: the Unicode space, line and paragraph
      separators other than the three non-breaking spaces, plus the ASCII
      controls U+0009-U+000D and U+001C-U+001F. */
  predicate IsWhitespace(c: char) {
    var x := c as int;
    (0x09 <= x <= 0x0D) || (0x1C <= x <= 0x20) || x == 0x1680 || (0x2000 <= x <= 0x2006) ||
    (0x2008 <= x <= 0x200A) || x == 0x2028 || x == 0x2029 || x == 0x205F || x == 0x3000
  }

  /** `isEmpty`: null or of length 0. */
  predicate IsEmpty(s: Option<string>) {
    s.None? || |s.value| == 0
  }

  /** `containsWhiteSpace`: some character is whitespace. */
  predicate ContainsWhitespace(s: string) {
    exists i :: 0 <= i < |s| && IsWhitespace(s[i])
  }

  /** `hasLength`: not null and not empty. */
  predicate HasLength(s: Option<string>) {
    !IsEmpty(s)
  }

  /** `hasText`: not null and holding at least one non-whitespace character. */
  predicate HasText(s: Option<string>) {
    s.Some? && exists i :: 0 <= i < |s.value| && !IsWhitespace(s.value[i])
  }

  /** Text that has text has length; a string of whitespace has length but no text. */
  lemma HasTextHasLength(s: Option<string>)
    ensures HasText(s) ==> HasLength(s)
  {
  }

  /** A string of one blank has length but no text. */
  lemma BlankHasNoText()
    ensures HasLength(Some(" ")) && !HasText(Some(" "))
  {
  }

  /** `limitString`: a message longer than `maxLength` is cut to its first
      `maxLength` characters and `"..."` is appended; a negative `maxLength`
      makes the `substring` call throw. */
  function LimitString(message: string, maxLength: int32): (r: Result<string>)
    ensures r.Err? <==> maxLength < 0
    ensures r.Err? ==> r.error == StringIndexOutOfBounds
    ensures r.Ok? && |message| <= maxLength ==> r.value == message
    ensures r.Ok? && |message| > maxLength ==>
      |r.value| == maxLength + 3 && r.value[..maxLength] == message[..maxLength] && r.value[maxLength..] == "..."
  {
    if |message| > maxLength then
      if maxLength < 0 then Err(StringIndexOutOfBounds) else Ok(message[..maxLength] + "...")
    else Ok(message)
  }

  /** A limited message is never longer than `maxLength + 3`, and is a prefix of
      the message or a prefix followed by the ellipsis. */
  lemma LimitStringBound(message: string, maxLength: int32)
    requires maxLength >= 0
    ensures var r := LimitString(message, maxLength);
      r.Ok? && |r.value| <= maxLength + 3 && |r.value| <= |message| + 3
  {
  }

  /** Limiting twice with the same bound changes nothing more. */
  lemma LimitStringIdempotent(message: string, maxLength: int32)
    requires maxLength >= 0
    ensures LimitString(LimitString(message, maxLength).value, maxLength) == LimitString(message, maxLength)
  {
    if |message| > maxLength {
      var r := message[..maxLength] + "...";
      assert r[..maxLength] == message[..maxLength];
      assert r[..maxLength] + "..." == r;
    }
  }
}
