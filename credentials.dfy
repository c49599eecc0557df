/** The member credential values: an e-mail address and a password, each
    validated once when it is made and compared by its string. A Java
    String that may be null is an Option<string>; String.length() counts
    UTF-16 code units. */
module Credentials {
  import opened Errors

  const AddressMaxLength: nat := 50
  const PasswordMinLength: nat := 8
  const PasswordMaxLength: nat := 20

  /** Character.isWhitespace: the Unicode space, line and paragraph
      separators other than the no-break spaces U+00A0, U+2007 and U+202F,
      and the controls U+0009 to U+000D and U+001C to U+001F. */
  predicate IsWhitespace(c: char) {
    var n := c as int;
    || n == 0x20 || 0x09 <= n <= 0x0D || 0x1C <= n <= 0x1F
    || n == 0x1680 || 0x2000 <= n <= 0x2006 || 0x2008 <= n <= 0x200A
    || n == 0x2028 || n == 0x2029 || n == 0x205F || n == 0x3000
  }

  /** String.isBlank: empty or white space only. */
  predicate IsBlank(s: string)
    ensures IsBlank(s) <==> forall c :: c in s ==> IsWhitespace(c)
  {
    forall i :: 0 <= i < |s| ==> IsWhitespace(s[i])
  }

  /** String.length: a character outside the Basic Multilingual Plane takes
      two UTF-16 code units. */
  function Utf16Length(s: string): (n: nat)
    ensures |s| <= n <= 2 * |s|
    ensures n == |s| <==> forall i :: 0 <= i < |s| ==> s[i] as int < 0x1_0000
    decreases |s|
  {
    if s == [] then 0 else (if s[0] as int >= 0x1_0000 then 2 else 1) + Utf16Length(s[1..])
  }

  /** The regex class \w without UNICODE_CHARACTER_CLASS: [a-zA-Z_0-9]. */
  predicate IsWordChar(c: char) {
    ('a' <= c <= 'z') || ('A' <= c <= 'Z') || ('0' <= c <= '9') || c == '_'
  }

  /** \w+ */
  predicate IsWord(s: string) {
    |s| > 0 && forall i :: 0 <= i < |s| ==> IsWordChar(s[i])
  }

  /** The whole string matches ^\w+@\w+\.\w+$ : a word, '@', a word, '.',
      a word. */
  predicate MatchesAddressPattern(s: string)
    ensures MatchesAddressPattern(s) ==> 5 <= |s| && IsWordChar(s[0]) && IsWordChar(s[|s| - 1])
  {
    exists i, j :: 0 <= i < j < |s| && s[i] == '@' && s[j] == '.'
                   && IsWord(s[..i]) && IsWord(s[i + 1..j]) && IsWord(s[j + 1..])
  }

  datatype Email = Email(address: string)

  /** new Email(address): the length check (skipped for null), then the
      blank check, then the pattern; an accepted address is kept as given. */
  function NewEmail(address: Option<string>): (r: Result<Email>)
    ensures r.Ok? <==> address.Some? && Utf16Length(address.value) <= AddressMaxLength
                       && MatchesAddressPattern(address.value)
    ensures r.Ok? ==> r.value.address == address.value
    ensures r == Err(IllegalArgument(EmailTooLongMessage))
            <==> address.Some? && Utf16Length(address.value) > AddressMaxLength
    ensures r == Err(IllegalArgument(EmailRequiredMessage))
            <==> address.None? || (Utf16Length(address.value) <= AddressMaxLength && IsBlank(address.value))
    ensures r == Err(IllegalArgument(EmailMalformedMessage))
            <==> address.Some? && Utf16Length(address.value) <= AddressMaxLength
                 && !IsBlank(address.value) && !MatchesAddressPattern(address.value)
  {
    if address.Some? && Utf16Length(address.value) > AddressMaxLength then
      Err(IllegalArgument(EmailTooLongMessage))
    else if address.None? || IsBlank(address.value) then
      Err(IllegalArgument(EmailRequiredMessage))
    else if !MatchesAddressPattern(address.value) then
      Err(IllegalArgument(EmailMalformedMessage))
    else
      (PatternIsNotBlank(address.value);
      Ok(Email(address.value)))
  }

  /** getAddress: the address, which validates again to the same e-mail. */
  function GetAddress(e: Email): (a: string)
    ensures NewEmail(Some(e.address)).Ok? ==> NewEmail(Some(a)) == Ok(e)
  {
    e.address
  }

  /** An address of the pattern has a word character, so it is not blank. */
  lemma PatternIsNotBlank(s: string)
    requires MatchesAddressPattern(s)
    ensures !IsBlank(s)
  {
    var i, j :| 0 <= i < j < |s| && s[i] == '@' && s[j] == '.'
                && IsWord(s[..i]) && IsWord(s[i + 1..j]) && IsWord(s[j + 1..]);
    assert s[..i][0] == s[0];
    assert !IsWhitespace(s[0]);
  }

  /** The number of times c occurs in s. */
  function Occurrences(s: string, c: char): nat
    decreases |s|
  {
    if s == [] then 0 else (if s[0] == c then 1 else 0) + Occurrences(s[1..], c)
  }

  lemma {:induction false} OccurrencesAppend(a: string, b: string, c: char)
    ensures Occurrences(a + b, c) == Occurrences(a, c) + Occurrences(b, c)
    decreases |a|
  {
    if a == [] {
      assert a + b == b;
    } else {
      assert (a + b)[0] == a[0];
      assert (a + b)[1..] == a[1..] + b;
      OccurrencesAppend(a[1..], b, c);
    }
  }

  lemma {:induction false} NoOccurrences(s: string, c: char)
    requires forall i :: 0 <= i < |s| ==> s[i] != c
    ensures Occurrences(s, c) == 0
    decreases |s|
  {
    if s != [] {
      NoOccurrences(s[1..], c);
    }
  }

  /** The positions of the '@' and the '.' that split an address of the
      pattern; every other character is a word character. */
  lemma PatternParts(s: string) returns (i: nat, j: nat)
    requires MatchesAddressPattern(s)
    ensures i < j < |s| && s[i] == '@' && s[j] == '.'
    ensures IsWord(s[..i]) && IsWord(s[i + 1..j]) && IsWord(s[j + 1..])
    ensures forall k :: 0 <= k < |s| && k != i && k != j ==> IsWordChar(s[k])
  {
    i, j :| 0 <= i < j < |s| && s[i] == '@' && s[j] == '.'
           && IsWord(s[..i]) && IsWord(s[i + 1..j]) && IsWord(s[j + 1..]);
    forall k | 0 <= k < |s| && k != i && k != j
      ensures IsWordChar(s[k])
    {
      if k < i {
        assert s[k] == s[..i][k];
      } else if k < j {
        assert s[k] == s[i + 1..j][k - i - 1];
      } else {
        assert s[k] == s[j + 1..][k - j - 1];
      }
    }
  }

  /** A character occurs once in s when it is at position p and nowhere
      else. */
  lemma OccursOnlyAt(s: string, p: nat, c: char)
    requires p < |s| && s[p] == c
    requires forall k :: 0 <= k < |s| && k != p ==> s[k] != c
    ensures Occurrences(s, c) == 1
  {
    assert s == s[..p] + [s[p]] + s[p + 1..];
    NoOccurrences(s[..p], c);
    NoOccurrences(s[p + 1..], c);
    OccurrencesAppend(s[..p] + [s[p]], s[p + 1..], c);
    OccurrencesAppend(s[..p], [s[p]], c);
  }

  /** What the pattern says about an accepted address: exactly one '@',
      exactly one '.', the '.' after the '@', and nothing but ASCII, so its
      Java length is its number of characters. */
  lemma AddressShape(s: string)
    requires MatchesAddressPattern(s)
    ensures Occurrences(s, '@') == 1 && Occurrences(s, '.') == 1
    ensures forall a, d :: 0 <= a < |s| && 0 <= d < |s| && s[a] == '@' && s[d] == '.' ==> a < d
    ensures Utf16Length(s) == |s|
  {
    var i, j := PatternParts(s);
    OccursOnlyAt(s, i, '@');
    OccursOnlyAt(s, j, '.');
    AsciiLength(s);
  }

  /** A string of ASCII characters takes one code unit per character. */
  lemma {:induction false} AsciiLength(s: string)
    requires forall k :: 0 <= k < |s| ==> s[k] as int < 0x80
    ensures Utf16Length(s) == |s|
    decreases |s|
  {
    if s != [] {
      AsciiLength(s[1..]);
    }
  }

  datatype Password = Password(password: string)

  /** new Password(raw): the blank check (null included), then the length
      bounds; an accepted password is kept as given. */
  function NewPassword(raw: Option<string>): (r: Result<Password>)
    ensures r.Ok? <==> raw.Some? && !IsBlank(raw.value)
                       && PasswordMinLength <= Utf16Length(raw.value) <= PasswordMaxLength
    ensures r.Ok? ==> r.value.password == raw.value
    ensures r == Err(IllegalArgument(PasswordRequiredMessage)) <==> raw.None? || IsBlank(raw.value)
    ensures r == Err(IllegalArgument(PasswordLengthMessage))
            <==> raw.Some? && !IsBlank(raw.value)
                 && !(PasswordMinLength <= Utf16Length(raw.value) <= PasswordMaxLength)
  {
    if raw.None? || IsBlank(raw.value) then Err(IllegalArgument(PasswordRequiredMessage))
    else if Utf16Length(raw.value) < PasswordMinLength || Utf16Length(raw.value) > PasswordMaxLength then
      Err(IllegalArgument(PasswordLengthMessage))
    else Ok(Password(raw.value))
  }

  /** matches: the stored password equals the given string; null matches
      nothing. */
  function Matches(p: Password, other: Option<string>): (b: bool)
    ensures b <==> other.Some? && other.value == p.password
  {
    match other
    case None => false
    case Some(s) => p.password == s
  }

  /** An accepted password matches the string it was made from and no
      other, and two passwords made from the same string are equal. */
  lemma PasswordMatchesItsSource(raw: string, other: string)
    requires NewPassword(Some(raw)).Ok?
    ensures Matches(NewPassword(Some(raw)).value, Some(other)) <==> other == raw
    ensures !Matches(NewPassword(Some(raw)).value, None)
    ensures NewPassword(Some(other)).Ok? ==>
              (NewPassword(Some(other)).value == NewPassword(Some(raw)).value <==> other == raw)
  {
  }

  /** An accepted address is returned by getAddress unchanged, and two
      e-mails made from strings are equal exactly when the strings are. */
  lemma EmailKeepsAddress(a: string, b: string)
    requires NewEmail(Some(a)).Ok? && NewEmail(Some(b)).Ok?
    ensures GetAddress(NewEmail(Some(a)).value) == a
    ensures NewEmail(Some(a)).value == NewEmail(Some(b)).value <==> a == b
  {
  }
}
