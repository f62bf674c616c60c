/** The fixed set of characters a file name may keep, and the test that a
    name uses no other character. */
module Alphabet {

  /** Every permitted character: ASCII letters, digits, a fixed set of
      punctuation, and space, percent, carriage return and line feed. */
  const ALLOWED: string := LOWER + UPPER + DIGITS + PUNCTUATION

  const LOWER: string := "abcdefghijklmnopqrstuvwxyz"
  const UPPER: string := "ABCDEFGHIJKLMNOPQRSTUVWXYZ"
  const DIGITS: string := "0123456789"
  /** The punctuation and white space permitted besides letters and digits. */
  const PUNCTUATION: string := "_-[]*(){}.,;+^!&#$=@'~" + " %\r\n"

  /** Membership in ALLOWED, decided by character class (all of the
      punctuation is ASCII); `InAllowed` below proves it agrees with the
      listed alphabet character by character. */
  predicate Permitted(c: char) {
    || ('a' <= c <= 'z')
    || ('A' <= c <= 'Z')
    || ('0' <= c <= '9')
    || (c <= '~' && c in PUNCTUATION)
  }

  /** A name is resolved when none of its characters is forbidden. */
  predicate Resolved(name: string) {
    forall i :: 0 <= i < |name| ==> Permitted(name[i])
  }

  lemma InAllowed(c: char)
    ensures c in ALLOWED <==> Permitted(c)
  {
    assert c in ALLOWED <==> c in LOWER || c in UPPER || c in DIGITS || c in PUNCTUATION;
    InLower(c);
    InUpper(c);
    InDigits(c);
    PunctuationIsAscii(c);
  }

  lemma InLower(c: char)
    ensures c in LOWER <==> 'a' <= c <= 'z'
  {
    assert forall k :: 0 <= k < 26 ==> LOWER[k] == ('a' as int + k) as char;
    if 'a' <= c <= 'z' {
      assert LOWER[c as int - 'a' as int] == c;
    }
  }

  lemma InUpper(c: char)
    ensures c in UPPER <==> 'A' <= c <= 'Z'
  {
    assert forall k :: 0 <= k < 26 ==> UPPER[k] == ('A' as int + k) as char;
    if 'A' <= c <= 'Z' {
      assert UPPER[c as int - 'A' as int] == c;
    }
  }

  lemma InDigits(c: char)
    ensures c in DIGITS <==> '0' <= c <= '9'
  {
    assert forall k :: 0 <= k < 10 ==> DIGITS[k] == ('0' as int + k) as char;
    if '0' <= c <= '9' {
      assert DIGITS[c as int - '0' as int] == c;
    }
  }

  lemma PunctuationIsAscii(c: char)
    ensures c in PUNCTUATION ==> c <= '~'
  {
  }

  /** `resolved` holds exactly when every character of the name is listed in ALLOWED. */
  lemma ResolvedIffAllInAllowed(name: string)
    ensures Resolved(name) <==> forall i :: 0 <= i < |name| ==> name[i] in ALLOWED
  {
    forall i | 0 <= i < |name| ensures name[i] in ALLOWED <==> Permitted(name[i]) {
      InAllowed(name[i]);
    }
  }

  /** The empty name has no forbidden character. */
  lemma EmptyIsResolved()
    ensures Resolved("")
  {
  }

  /** A concatenation is resolved exactly when both parts are. */
  lemma ResolvedConcat(a: string, b: string)
    ensures Resolved(a + b) <==> Resolved(a) && Resolved(b)
  {
    if Resolved(a + b) {
      forall i | 0 <= i < |a| ensures Permitted(a[i]) { assert (a + b)[i] == a[i]; }
      forall i | 0 <= i < |b| ensures Permitted(b[i]) { assert (a + b)[|a| + i] == b[i]; }
    }
  }

  /** `resolved`: scans every character and clears the flag on each forbidden one. */
  method IsResolved(name: string) returns (result: bool)
    ensures result <==> Resolved(name)
  {
    result := true;
    for i := 0 to |name|
      invariant result <==> forall j :: 0 <= j < i ==> Permitted(name[j])
    {
      if !Permitted(name[i]) {
        result := false;
      }
    }
  }
}
