/**
 * Client-side bucket-name validation done before any create request, and the
 * rewording of the backend's error text when creation fails.
 */
module BucketName {
  import opened Js

  /** The four checks, in the order they run. */
  datatype Check = Required | NoUppercase | LengthRange | Pattern

  datatype Validation = Accepted(name: string) | Rejected(failed: Check)

  const MinLength := 3
  const MaxLength := 63

  predicate IsUpper(c: char) { 'A' <= c <= 'Z' }
  predicate IsLowerAlnum(c: char) { 'a' <= c <= 'z' || '0' <= c <= '9' }
  predicate IsNameChar(c: char) { IsLowerAlnum(c) || c == '-' }

  /** `/[A-Z]/.test(name)`. */
  predicate HasUppercase(name: string) {
    exists i :: 0 <= i < |name| && IsUpper(name[i])
  }

  /** `/^[a-z0-9][a-z0-9-]*[a-z0-9]$/.test(name)`: at least two characters, alphanumeric at both ends, hyphens allowed inside. */
  predicate MatchesPattern(name: string) {
    && |name| >= 2
    && IsLowerAlnum(name[0])
    && IsLowerAlnum(name[|name| - 1])
    && forall i :: 0 < i < |name| - 1 ==> IsNameChar(name[i])
  }

  /** Whether `check` fails for the (already trimmed) name. */
  predicate Fails(check: Check, name: string) {
    match check
    case Required => name == []
    case NoUppercase => HasUppercase(name)
    case LengthRange => Utf16Length(name) < MinLength || Utf16Length(name) > MaxLength
    case Pattern => !MatchesPattern(name)
  }

  /** Position of a check in the order they run. */
  function Rank(check: Check): nat {
    match check
    case Required => 0
    case NoUppercase => 1
    case LengthRange => 2
    case Pattern => 3
  }

  /** Trim the input, then run the checks in order. */
  function Validate(input: string): Validation {
    Checks(Trim(input))
  }

  /** The checks in order on the trimmed name; the first one that fails is reported. */
  function Checks(name: string): Validation {
    if name == [] then Rejected(Required)
    else if HasUppercase(name) then Rejected(NoUppercase)
    else if Utf16Length(name) < MinLength || Utf16Length(name) > MaxLength then Rejected(LengthRange)
    else if !MatchesPattern(name) then Rejected(Pattern)
    else Accepted(name)
  }

  /** The reported check is one that fails, and every check that runs before it passes. */
  lemma FirstFailureWins(input: string)
    ensures Validate(input).Rejected? ==>
              Fails(Validate(input).failed, Trim(input))
              && forall c: Check :: Rank(c) < Rank(Validate(input).failed) ==> !Fails(c, Trim(input))
    ensures Validate(input).Accepted? ==>
              Validate(input).name == Trim(input) && forall c: Check :: !Fails(c, Trim(input))
  {
    var name := Trim(input);
    var v := Validate(input);
    forall c: Check | v.Rejected? ==> Rank(c) < Rank(v.failed)
      ensures !Fails(c, name)
    {
      match c
      case Required =>
      case NoUppercase =>
      case LengthRange =>
      case Pattern =>
    }
  }

  /** A name made of `[a-z0-9-]` has no code point above U+FFFF, so its `length` is its character count. */
  lemma NameCharsLength(name: string)
    requires forall i :: 0 <= i < |name| ==> IsNameChar(name[i])
    ensures Utf16Length(name) == |name|
  {
    BmpUtf16Length(name);
  }

  /**
   * The checks accept exactly the names of 3 to 63 characters drawn from
   * `[a-z0-9-]` that start and end with `[a-z0-9]`.
   */
  lemma AcceptsExactly(name: string)
    ensures Checks(name).Accepted? <==>
              && MinLength <= |name| <= MaxLength
              && (forall i :: 0 <= i < |name| ==> IsNameChar(name[i]))
              && IsLowerAlnum(name[0]) && IsLowerAlnum(name[|name| - 1])
  {
    var allowed := forall i :: 0 <= i < |name| ==> IsNameChar(name[i]);
    if MatchesPattern(name) {
      forall i | 0 <= i < |name|
        ensures IsNameChar(name[i])
      {
        if i == 0 || i == |name| - 1 {} else {}
      }
      assert allowed;
    }
    if allowed {
      NameCharsLength(name);
      NoUppercaseInNameChars(name);
    }
  }

  lemma NoUppercaseInNameChars(name: string)
    requires forall i :: 0 <= i < |name| ==> IsNameChar(name[i])
    ensures !HasUppercase(name)
  {
    forall i | 0 <= i < |name|
      ensures !IsUpper(name[i])
    {
      assert IsNameChar(name[i]);
    }
  }

  /** Surrounding whitespace never changes the outcome. */
  lemma TrimInsensitive(input: string)
    ensures Validate(Trim(input)) == Validate(input)
  {
    TrimIdempotent(input);
  }

  /** "AB" fails the uppercase check before the length check. */
  lemma UppercaseReportedFirst()
    ensures Validate("AB") == Rejected(NoUppercase)
  {
    TrimSurrounded([], "AB", []);
    assert [] + "AB" + [] == "AB";
    assert IsUpper("AB"[0]);
  }

  /** "ab" passes the character checks and fails on length. */
  lemma ShortNameRejected()
    ensures Validate("ab") == Rejected(LengthRange)
  {
    TrimSurrounded([], "ab", []);
    assert [] + "ab" + [] == "ab";
    assert !HasUppercase("ab");
  }

  /** "-abc" has a valid length but starts with a hyphen. */
  lemma LeadingHyphenRejected()
    ensures Validate("-abc") == Rejected(Pattern)
  {
    TrimSurrounded([], "-abc", []);
    assert [] + "-abc" + [] == "-abc";
    assert !HasUppercase("-abc");
    NameCharsLength("-abc");
  }

  /** The notification text shown for each failed check. */
  function Message(check: Check): string {
    match check
    case Required => "Bucket name is required"
    case NoUppercase => "Bucket name cannot contain uppercase letters. Please use only lowercase letters."
    case LengthRange => "Bucket name must be 3-63 characters long"
    case Pattern => "Bucket name can only contain lowercase letters, numbers, and hyphens. It must start and end with a letter or number."
  }

  // ---------------------------------------------------------------------------
  // Rewording of the backend's create error

  const NameTakenText := "Bucket name already taken." + " Please choose a different name."
  /** Written word by word: the message's words in order, with their spaces and punctuation. */
  const BadFormatText := "Invalid" + (" bucket" + " name" + " format." + " Use" + " only" + " lowercase" + " letters," + " numbers," + " and" + " hyphens.")
  const CreateFailedText := "Create failed"

  /**
   * `data.error || 'Create failed'`, then: text mentioning "not available"
   * becomes the name-taken message, otherwise text mentioning
   * "InvalidBucketName" becomes the format message, otherwise it is shown as is.
   */
  function CreateErrorText(error: Option<string>): string {
    var text := OrElse(error, CreateFailedText);
    if Includes(text, "not available") then NameTakenText
    else if Includes(text, "InvalidBucketName") then BadFormatText
    else text
  }

  /** The three outcomes of the rewording, the name-taken test taking precedence. */
  lemma CreateErrorCases(error: Option<string>)
    ensures var text := OrElse(error, CreateFailedText);
      && (Includes(text, "not available") ==> CreateErrorText(error) == NameTakenText)
      && (!Includes(text, "not available") && Includes(text, "InvalidBucketName") ==> CreateErrorText(error) == BadFormatText)
      && (!Includes(text, "not available") && !Includes(text, "InvalidBucketName") ==> CreateErrorText(error) == text)
    ensures !Truthy(error) ==> CreateErrorText(error) == CreateFailedText
    ensures CreateErrorText(error) != []
  {
    if !Truthy(error) {
      NoMarkerIn(CreateFailedText);
    }
  }

  lemma NameTakenTextLacksV()
    ensures 'v' !in NameTakenText
  {
    assert 'v' !in "Bucket name already taken.";
    assert 'v' !in " Please choose a different name.";
  }

  /** The format message starts "Inv" and has no 'v' after its first word, and no 'B' at all. */
  lemma BadFormatTextLetters()
    ensures |BadFormatText| > 7 && BadFormatText[..7] == "Invalid"
    ensures 'v' !in BadFormatText[7..] && 'B' !in BadFormatText
  {
    var w1, w2, w3 := " bucket", " name", " format.";
    var w4, w5, w6, w7 := " Use", " only", " lowercase", " letters,";
    var w8, w9, w10 := " numbers,", " and", " hyphens.";
    LacksVAndB(w1); LacksVAndB(w2); LacksVAndB(w3);
    LacksVAndB(w4); LacksVAndB(w5); LacksVAndB(w6); LacksVAndB(w7);
    LacksVAndB(w8); LacksVAndB(w9); LacksVAndB(w10);
    var rest := w1 + w2 + w3 + w4 + w5 + w6 + w7 + w8 + w9 + w10;
    assert BadFormatText == "Invalid" + rest;
    assert BadFormatText[7..] == rest;
  }

  /** The words of the format message after "Invalid". */
  lemma LacksVAndB(word: string)
    requires word in [" bucket", " name", " format.", " Use", " only", " lowercase", " letters,", " numbers,", " and", " hyphens."]
    ensures 'v' !in word && 'B' !in word
  {}

  /** None of the three fixed texts mentions either marker, so none of them is reworded again. */
  lemma NoMarkerIn(text: string)
    requires text == NameTakenText || text == BadFormatText || text == CreateFailedText
    ensures !Includes(text, "not available") && !Includes(text, "InvalidBucketName")
  {
    if text == BadFormatText {
      BadFormatTextLetters();
      // An occurrence of "not available" at i >= 2 would put its 'v' (index 5) after "Invalid";
      // at 0 or 1 its 'o' (index 1) would fall on the 'n' or the 'v' of "Inv".
      forall i: nat | i + 13 <= |text|
        ensures !OccursAt(text, "not available", i)
      {
        if i < 2 {
          assert text[i..i + 13][1] == text[..7][i + 1];
        } else {
          assert text[i..i + 13][5] == text[7..][i - 2];
        }
      }
      NoOccurrenceFound(text, "not available", 0);
      AbsentCharRulesOut(text, "InvalidBucketName", 7);
    } else {
      if text == NameTakenText {
        NameTakenTextLacksV();
      }
      AbsentCharRulesOut(text, "not available", 5);
      AbsentCharRulesOut(text, "InvalidBucketName", 2);
    }
  }

  /** Rewording is idempotent: a reworded text passed through again comes out unchanged. */
  lemma CreateErrorIdempotent(error: Option<string>)
    ensures CreateErrorText(Some(CreateErrorText(error))) == CreateErrorText(error)
  {
    var text := OrElse(error, CreateFailedText);
    var r := CreateErrorText(error);
    CreateErrorCases(error);
    if r == NameTakenText || r == BadFormatText || r == CreateFailedText {
      NoMarkerIn(r);
    } else {
      assert r == text;
    }
  }
}
