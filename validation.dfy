/** The key and type checks that every lookup, update and flash scan applies. */
module Validation {
  import opened SettingsTypes
  import opened CText

  /** isupper, isdigit or '_' in the C locale. */
  predicate IsKeyChar(c: char) {
    'A' <= c <= 'Z' || '0' <= c <= '9' || c == '_'
  }

  /** The character loop of checkKeyFormat, one char at a time. */
  predicate AllKeyChars(s: seq<char>) {
    |s| == 0 || (IsKeyChar(s[0]) && AllKeyChars(s[1..]))
  }

  /** checkKeyFormat: the key's C string is non-empty and uses only A-Z, 0-9 and '_'. */
  predicate CheckKeyFormat(key: seq<char>) {
    var text := CStr(key);
    |text| != 0 && AllKeyChars(text)
  }

  /** checkTypeFormat: the tag is one of INT, STRING and BOOL. */
  predicate CheckTypeFormat(dataType: int)
    ensures CheckTypeFormat(dataType) <==> 0 <= dataType <= 2
  {
    dataType == TypeInt || dataType == TypeString || dataType == TypeBool
  }

  lemma {:induction false} AllKeyCharsIff(s: seq<char>)
    ensures AllKeyChars(s) <==> forall i :: 0 <= i < |s| ==> IsKeyChar(s[i])
  {
    if |s| > 0 {
      AllKeyCharsIff(s[1..]);
      assert forall i :: 1 <= i < |s| ==> s[i] == s[1..][i - 1];
    }
  }

  /** A key is accepted exactly when its text is non-empty and every char is a key char. */
  lemma CheckKeyFormatIff(key: seq<char>)
    ensures CheckKeyFormat(key) <==>
      |CStr(key)| > 0 && forall i :: 0 <= i < |CStr(key)| ==> IsKeyChar(CStr(key)[i])
  {
    AllKeyCharsIff(CStr(key));
  }

  /** One lower-case letter, blank or punctuation mark other than '_' rejects the key. */
  lemma KeyWithForeignCharRejected(key: seq<char>, i: nat)
    requires i < |CStr(key)| && !IsKeyChar(CStr(key)[i])
    ensures !CheckKeyFormat(key)
  {
    CheckKeyFormatIff(key);
  }

  /** Keys written as C literals (no NUL inside) are judged on their own chars. */
  lemma CheckKeyFormatOfText(t: seq<char>)
    requires '\0' !in t
    ensures CheckKeyFormat(t) <==> |t| > 0 && forall i :: 0 <= i < |t| ==> IsKeyChar(t[i])
  {
    CStrOfNulFree(t);
    CheckKeyFormatIff(t);
  }

  /** A key field holding `t` followed by NULs is judged by `t`. */
  lemma CheckKeyFormatOfPadded(t: seq<char>, n: nat)
    requires '\0' !in t && |t| <= n
    ensures CheckKeyFormat(Pad(t, n)) == CheckKeyFormat(t)
  {
    CStrOfPad(t, n);
    CStrOfNulFree(t);
  }
}
