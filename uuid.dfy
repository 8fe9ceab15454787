/** The identifier check `isValidUUID` (index.js:30-33): an anchored, case-insensitive
    regular expression for the canonical 8-4-4-4-12 hexadecimal text of a version-4
    UUID (section 4.4 of RFC 4122): version nibble `4`, variant nibble one of `8 9 a b`.
    The regular expression is modelled as data (`MatchesUuidRegex`); the handlers use the
    equivalent position-by-position predicate `IsValidUuid`. */
module Uuid {
  import opened JsStrings

  /** One bracket or literal of the regular expression, written with its lower-case
      members. Under the `i` flag a character matches when its lower-case form is a
      member; the flag never maps a non-ASCII character onto an ASCII one. */
  datatype CharClass = CharClass(members: string)

  const HEX := CharClass("0123456789abcdef")
  const HYPHEN := CharClass("-")
  const VERSION := CharClass("4")
  const VARIANT := CharClass("89ab")

  predicate ClassMatches(cls: CharClass, c: char) {
    LowerChar(c) in cls.members
  }

  function Repeat(cls: CharClass, n: nat): (p: seq<CharClass>)
    ensures |p| == n && forall k :: 0 <= k < n ==> p[k] == cls
  {
    seq(n, _ => cls)
  }

  /** `^[0-9a-f]{8}-[0-9a-f]{4}-4[0-9a-f]{3}-[89ab][0-9a-f]{3}-[0-9a-f]{12}$`, one class per character. */
  function UuidPattern(): seq<CharClass> {
    Repeat(HEX, 8) + [HYPHEN] + Repeat(HEX, 4) + [HYPHEN, VERSION] + Repeat(HEX, 3)
    + [HYPHEN, VARIANT] + Repeat(HEX, 3) + [HYPHEN] + Repeat(HEX, 12)
  }

  /** The whole of `s` matches the pattern, one class per character (`^` and `$` anchor
      both ends; without the `m` flag `$` matches only at the end of the input). */
  predicate Matches(pattern: seq<CharClass>, s: string)
    decreases |pattern|
  {
    if pattern == [] then s == []
    else s != [] && ClassMatches(pattern[0], s[0]) && Matches(pattern[1..], s[1..])
  }

  /** `uuidRegex.test(s)`, with the pattern as data: the reference meaning of the check. */
  predicate MatchesUuidRegex(s: string) {
    Matches(UuidPattern(), s)
  }

  // ----- the same check, stated position by position: `isValidUUID(id)`

  predicate IsHexDigit(c: char) {
    '0' <= c <= '9' || 'a' <= c <= 'f' || 'A' <= c <= 'F'
  }

  predicate IsHyphenPosition(i: int) {
    i == 8 || i == 13 || i == 18 || i == 23
  }

  /** Length 36, hyphens at 8, 13, 18 and 23, hexadecimal digits of either case elsewhere,
      `4` at 14 and one of `8 9 a b A B` at 19. */
  predicate IsValidUuid(s: string) {
    |s| == 36
    && (forall i :: 0 <= i < |s| && IsHyphenPosition(i) ==> s[i] == '-')
    && (forall i :: 0 <= i < |s| && !IsHyphenPosition(i) ==> IsHexDigit(s[i]))
    && s[14] == '4'
    && s[19] in "89abAB"
  }

  /** Matching a sequence of classes is matching each class at its own position. */
  lemma {:induction false} MatchesPositionwise(pattern: seq<CharClass>, s: string)
    ensures Matches(pattern, s)
        <==> |s| == |pattern| && forall i :: 0 <= i < |s| ==> ClassMatches(pattern[i], s[i])
    decreases |pattern|
  {
    if pattern != [] && s != [] {
      MatchesPositionwise(pattern[1..], s[1..]);
      if |s| == |pattern| && forall i :: 0 <= i < |s| ==> ClassMatches(pattern[i], s[i]) {
        forall i | 0 <= i < |s[1..]| ensures ClassMatches(pattern[1..][i], s[1..][i]) {
          assert ClassMatches(pattern[i + 1], s[i + 1]);
        }
      }
      if Matches(pattern, s) {
        forall i | 0 <= i < |s| ensures ClassMatches(pattern[i], s[i]) {
          if i > 0 { assert ClassMatches(pattern[1..][i - 1], s[1..][i - 1]); }
        }
      }
    }
  }

  /** The class the pattern puts at each of the 36 positions. */
  lemma UuidPatternAt(i: nat)
    requires i < 36
    ensures |UuidPattern()| == 36
    ensures UuidPattern()[i]
         == if IsHyphenPosition(i) then HYPHEN
            else if i == 14 then VERSION
            else if i == 19 then VARIANT
            else HEX
  {
    var p := UuidPattern();
    var h8, h4, h3, h12 := Repeat(HEX, 8), Repeat(HEX, 4), Repeat(HEX, 3), Repeat(HEX, 12);
    assert p == h8 + [HYPHEN] + h4 + [HYPHEN, VERSION] + h3 + [HYPHEN, VARIANT] + h3 + [HYPHEN] + h12;
    if i < 8 { assert p[i] == h8[i]; }
    else if i == 8 { assert p[i] == HYPHEN; }
    else if i < 13 { assert p[i] == h4[i - 9]; }
    else if i < 15 { }
    else if i < 18 { assert p[i] == h3[i - 15]; }
    else if i < 20 { }
    else if i < 23 { assert p[i] == h3[i - 20]; }
    else if i == 23 { }
    else { assert p[i] == h12[i - 24]; }
  }

  lemma ClassMatchesChar(c: char)
    ensures ClassMatches(HEX, c) <==> IsHexDigit(c)
    ensures ClassMatches(HYPHEN, c) <==> c == '-'
    ensures ClassMatches(VERSION, c) <==> c == '4'
    ensures ClassMatches(VARIANT, c) <==> c in "89abAB"
  {
  }

  /** What `IsValidUuid` asks of the character at position `i`. */
  predicate PositionOk(i: int, c: char) {
    if IsHyphenPosition(i) then c == '-'
    else if i == 14 then c == '4'
    else if i == 19 then c in "89abAB"
    else IsHexDigit(c)
  }

  lemma IsValidUuidPositionwise(s: string)
    requires |s| == 36
    ensures IsValidUuid(s) <==> forall i :: 0 <= i < 36 ==> PositionOk(i, s[i])
  {
    if forall i :: 0 <= i < 36 ==> PositionOk(i, s[i]) {
      assert PositionOk(14, s[14]) && PositionOk(19, s[19]);
    }
  }

  /** The regular expression accepts exactly the texts `IsValidUuid` describes. */
  lemma RegexAgreesWithIsValidUuid(s: string)
    ensures MatchesUuidRegex(s) <==> IsValidUuid(s)
  {
    MatchesPositionwise(UuidPattern(), s);
    UuidPatternAt(0);
    if |s| == 36 {
      forall i | 0 <= i < 36
        ensures ClassMatches(UuidPattern()[i], s[i]) <==> PositionOk(i, s[i])
      {
        UuidPatternAt(i);
        ClassMatchesChar(s[i]);
      }
      IsValidUuidPositionwise(s);
    }
  }

  /** A malformed identifier such as "not-a-uuid" is rejected. */
  lemma NotAUuidIsInvalid()
    ensures !MatchesUuidRegex("not-a-uuid") && !IsValidUuid("not-a-uuid")
  {
    RegexAgreesWithIsValidUuid("not-a-uuid");
  }

  /** A lower-case version-4 identifier, as `uuidv4()` produces them, is accepted. */
  lemma SampleIdIsValid()
    ensures MatchesUuidRegex("1b9d6bcd-bbfd-4b2d-9b5d-ab8dfbbd4bed")
  {
    var s := "1b9d6bcd-bbfd-4b2d-9b5d-ab8dfbbd4bed";
    forall i | 0 <= i < 36 ensures PositionOk(i, s[i]) { }
    IsValidUuidPositionwise(s);
    RegexAgreesWithIsValidUuid(s);
  }
}
