/**
 * One account (models/user.ts): its name, its password digest and the last
 * token issued to it. Only the newest token is valid: the `lastToken` field is
 * compared by equality.
 */
module Users {

  /** The names `isValidUsername` refuses even when they match the pattern. */
  const ForbiddenUsernames: seq<string> := [
    "admin", "administrator", "administration",
    "root", "superuser", "super",
    "moderator", "mod", "moderation"
  ]

  class User {
    const username: string
    const passwordHash: string
    var lastToken: string
    /** The SHA-256 hex digest, left uninterpreted. */
    const digest: string -> string

    /**
     * With `isPassword` the second argument is a password and its digest is
     * stored; without it the argument is a digest read from the record file
     * and is stored verbatim.
     */
    constructor (username: string, password: string, isPassword: bool, digest: string -> string)
      ensures this.username == username && this.digest == digest
      ensures passwordHash == if isPassword then digest(username + password) else password
      ensures isPassword ==> CheckPassword(password)
      ensures lastToken == "" && GetToken() == ""
    {
      this.username := username;
      this.digest := digest;
      passwordHash := if isPassword then digest(username + password) else password;
      lastToken := "";
    }

    /** The digest of the name followed by the password. */
    function ComputeHash(password: string): string
    {
      digest(username + password)
    }

    predicate CheckPassword(password: string)
    {
      passwordHash == ComputeHash(password)
    }

    predicate IsTokenValid(token: string)
      reads this
    {
      lastToken == token
    }

    function GetToken(): string
      reads this
    {
      lastToken
    }

    /** Issues `uuid` (a fresh random UUID in the running system) as the only valid token. */
    method GenerateToken(uuid: string) returns (token: string)
      modifies this
      ensures token == uuid && lastToken == uuid
      ensures IsTokenValid(token)
      ensures forall other :: other != token ==> !IsTokenValid(other)
    {
      lastToken := uuid;
      token := lastToken;
    }

    /** Invalidates every non-empty token. */
    method ResetToken()
      modifies this
      ensures lastToken == ""
      ensures forall token :: token != "" ==> !IsTokenValid(token)
    {
      lastToken := "";
    }

    /** The regular expression `^[a-z][a-z0-9_-]{2,19}$`, and not a forbidden name. */
    static predicate IsValidUsername(name: string)
    {
      MatchesUsernamePattern(name) && name !in ForbiddenUsernames
    }
  }

  predicate IsLowerLetter(c: char)
  {
    'a' <= c <= 'z'
  }

  /** The character class `[a-z0-9_-]`. */
  predicate IsNameChar(c: char)
  {
    'a' <= c <= 'z' || '0' <= c <= '9' || c == '_' || c == '-'
  }

  /** `[a-z0-9_-]{lo,hi}` matched against the whole of `s`. */
  predicate RepeatsNameChar(s: string, lo: nat, hi: nat)
  {
    if s == [] then lo == 0
    else hi > 0 && IsNameChar(s[0]) && RepeatsNameChar(s[1..], if lo > 0 then lo - 1 else 0, hi - 1)
  }

  /** `^[a-z][a-z0-9_-]{2,19}$`: anchored at both ends. */
  predicate MatchesUsernamePattern(name: string)
  {
    |name| > 0 && IsLowerLetter(name[0]) && RepeatsNameChar(name[1..], 2, 19)
  }

  /** The bounded repetition matches exactly the strings of allowed length made of allowed characters. */
  lemma {:induction false} RepeatsNameCharExactly(s: string, lo: nat, hi: nat)
    ensures RepeatsNameChar(s, lo, hi) <==> lo <= |s| <= hi && forall i :: 0 <= i < |s| ==> IsNameChar(s[i])
  {
    if s != [] && hi > 0 {
      RepeatsNameCharExactly(s[1..], if lo > 0 then lo - 1 else 0, hi - 1);
      assert forall i :: 1 <= i < |s| ==> s[i] == s[1..][i - 1];
    }
  }

  /**
   * A name is accepted exactly when it has 3 to 20 characters, starts with a
   * lower-case letter, continues with letters, digits, `_` or `-`, and is not
   * one of the nine forbidden names.
   */
  lemma ValidUsernameExactly(name: string)
    ensures User.IsValidUsername(name) <==>
      && 3 <= |name| <= 20
      && IsLowerLetter(name[0])
      && (forall i :: 1 <= i < |name| ==> IsNameChar(name[i]))
      && name !in ForbiddenUsernames
  {
    if |name| > 0 {
      RepeatsNameCharExactly(name[1..], 2, 19);
      assert forall i :: 1 <= i < |name| ==> name[i] == name[1..][i - 1];
    }
  }

  /** An accepted name holds neither a space nor a newline, so it survives the record file. */
  lemma ValidUsernameHasNoSeparator(name: string)
    requires User.IsValidUsername(name)
    ensures ' ' !in name && '\n' !in name
  {
    ValidUsernameExactly(name);
  }
}
