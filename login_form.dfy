/**
 * Client-side validation of the login/signup form (src/components/LoginForm.tsx):
 * the username and email regular expressions, the password length rule and
 * the early-return check chain of `handleSubmit`.
 *
 * Each regular expression is modelled twice: as a matcher that walks the
 * string the way the pattern is written, and as a declarative description of
 * the strings it accepts; a lemma shows the two agree on every input.
 */
module LoginForm {
  import opened Wrappers

  const MinUsernameLength: int := 7
  const MaxUsernameLength: int := 30
  const MinPasswordLength: int := 6

  const UsernameError: string := "Invalid username (7-28 characters; alphabets, numbers, _ only. Should start with alphabets)"
  const EmailError: string := "Please enter a valid email address"
  const PasswordError: string := "Password must be at least 6 characters long."

  predicate IsLetter(c: char)
  {
    'A' <= c <= 'Z' || 'a' <= c <= 'z'
  }

  /** The class `[A-Za-z0-9_]`. */
  predicate IsWordChar(c: char)
  {
    IsLetter(c) || '0' <= c <= '9' || c == '_'
  }

  /** The characters JavaScript's `\s` matches (white space and line terminators); `\S` is every other character. */
  predicate IsSpace(c: char)
  {
    c == '\t' || c == '\n' || c == '\U{000B}' || c == '\U{000C}' || c == '\r' || c == ' ' ||
    c == '\U{00A0}' || c == '\U{1680}' || ('\U{2000}' <= c <= '\U{200A}') ||
    c == '\U{2028}' || c == '\U{2029}' || c == '\U{202F}' || c == '\U{205F}' ||
    c == '\U{3000}' || c == '\U{FEFF}'
  }

  // ---------------------------------------------------------------------------
  // Username: /^[A-Za-z][A-Za-z0-9_]{6,29}$/

  /** `t` matches `[A-Za-z0-9_]{lo,hi}$`, consuming one character per repetition. */
  function MatchRepeat(t: string, lo: int, hi: int): (r: bool)
    ensures r ==> lo <= |t| && (t == [] || |t| <= hi)
    decreases |t|
  {
    if t == [] then lo <= 0
    else hi > 0 && IsWordChar(t[0]) && MatchRepeat(t[1..], lo - 1, hi - 1)
  }

  /** `isValidUsername` (src/components/LoginForm.tsx:22-25): the anchored pattern tried on the whole string. */
  function IsValidUsername(u: string): (r: bool)
    ensures r ==> MinUsernameLength <= |u| <= MaxUsernameLength && IsLetter(u[0])
  {
    |u| > 0 && IsLetter(u[0]) && MatchRepeat(u[1..], 6, 29)
  }

  /** The strings the username pattern describes. */
  ghost predicate UsernameSpec(u: string)
  {
    && MinUsernameLength <= |u| <= MaxUsernameLength
    && IsLetter(u[0])
    && forall i :: 1 <= i < |u| ==> IsWordChar(u[i])
  }

  lemma {:induction false} MatchRepeatMeans(t: string, lo: int, hi: int)
    requires 0 <= hi
    ensures MatchRepeat(t, lo, hi) <==> lo <= |t| <= hi && forall i :: 0 <= i < |t| ==> IsWordChar(t[i])
    decreases |t|
  {
    if t != [] && hi > 0 {
      MatchRepeatMeans(t[1..], lo - 1, hi - 1);
      if forall i :: 0 <= i < |t[1..]| ==> IsWordChar(t[1..][i]) {
        if IsWordChar(t[0]) {
          forall i | 0 <= i < |t| ensures IsWordChar(t[i]) {
            if i > 0 { assert t[i] == t[1..][i - 1]; }
          }
        }
      } else {
        var j :| 0 <= j < |t[1..]| && !IsWordChar(t[1..][j]);
        assert !IsWordChar(t[j + 1]);
      }
    }
  }

  /**
   * A username is accepted exactly when it starts with an ASCII letter, goes on
   * with letters, digits or '_', and is 7 to 30 characters long (the message
   * shown on failure says 7-28).
   */
  lemma UsernameMatchesSpec(u: string)
    ensures IsValidUsername(u) <==> UsernameSpec(u)
  {
    if |u| > 0 {
      MatchRepeatMeans(u[1..], 6, 29);
      if forall i :: 1 <= i < |u| ==> IsWordChar(u[i]) {
        forall i | 0 <= i < |u[1..]| ensures IsWordChar(u[1..][i]) {
          assert u[1..][i] == u[i + 1];
        }
      } else {
        var j :| 1 <= j < |u| && !IsWordChar(u[j]);
        assert !IsWordChar(u[1..][j - 1]);
      }
    }
  }

  /** Usernames of 29 and 30 characters pass although the error message announces at most 28. */
  lemma ThirtyCharacterUsernameAccepted()
    ensures IsValidUsername(seq(30, _ => 'a'))
  {
    UsernameMatchesSpec(seq(30, _ => 'a'));
  }

  // ---------------------------------------------------------------------------
  // Email: /\S+@\S+\.\S+/ (not anchored)

  /** First index at or after `i` holding a white-space character, or |s|. */
  function RunEnd(s: string, i: nat): (e: nat)
    requires i <= |s|
    ensures i <= e <= |s|
    ensures forall k :: i <= k < e ==> !IsSpace(s[k])
    ensures e < |s| ==> IsSpace(s[e])
    decreases |s| - i
  {
    if i == |s| || IsSpace(s[i]) then i else RunEnd(s, i + 1)
  }

  /** Some '.' lies strictly inside (lo, hi - 1), scanning from `d`. */
  function DotBetween(s: string, d: nat, hi: nat): (r: bool)
    requires hi <= |s|
    ensures r ==> d + 1 < hi
    decreases hi - d
  {
    if d + 1 >= hi then false
    else s[d] == '.' || DotBetween(s, d + 1, hi)
  }

  /**
   * `\S+@\S+\.\S+` matches with its '@' at position p: a non-space before it,
   * and in the run of non-space characters after it a '.' that has at least
   * one character on each side.
   */
  function MatchAt(s: string, p: nat): bool
    requires p < |s|
  {
    s[p] == '@' && p >= 1 && !IsSpace(s[p - 1]) && DotBetween(s, p + 2, RunEnd(s, p + 1))
  }

  /** The pattern is tried at every '@' from position `p` on. */
  function MatchFrom(s: string, p: nat): (r: bool)
    requires p <= |s|
    ensures r ==> exists i :: p <= i && 1 <= i && i + 4 <= |s| && s[i] == '@'
    decreases |s| - p
  {
    p < |s| && (MatchAt(s, p) || MatchFrom(s, p + 1))
  }

  /** `isValidEmail` (src/components/LoginForm.tsx:27-30): `re.test(email)`, a search anywhere in the string. */
  function IsValidEmail(e: string): (r: bool)
    // an accepted address has an '@' with a character before it and at least three after it
    ensures r ==> exists i :: 1 <= i && i + 4 <= |e| && e[i] == '@'
  {
    MatchFrom(e, 0)
  }

  /**
   * `\S+@\S+\.\S+` can match with its '@' at position p and its '.' at
   * position d: a non-space right before p, and non-spaces from p up to and
   * including the character after d.
   */
  ghost predicate MatchesWith(e: string, p: int, d: int)
  {
    && 1 <= p && p + 1 < d && d + 1 < |e|
    && e[p] == '@' && e[d] == '.' && !IsSpace(e[p - 1])
    && forall k :: p < k <= d + 1 ==> !IsSpace(e[k])
  }

  /** The strings the email pattern finds a match in; what surrounds the match is free. */
  ghost predicate EmailSpec(e: string)
  {
    exists p, d :: MatchesWith(e, p, d)
  }

  lemma {:induction false} DotBetweenMeans(s: string, d: nat, hi: nat)
    requires hi <= |s|
    ensures DotBetween(s, d, hi) <==> exists j :: d <= j && j + 1 < hi && s[j] == '.'
    decreases hi - d
  {
    if d + 1 < hi {
      DotBetweenMeans(s, d + 1, hi);
    }
  }

  lemma MatchAtMeans(s: string, p: nat)
    requires p < |s|
    ensures MatchAt(s, p) <==> exists d :: MatchesWith(s, p, d)
  {
    var hi := RunEnd(s, p + 1);
    DotBetweenMeans(s, p + 2, hi);
    if MatchAt(s, p) {
      var d :| p + 2 <= d && d + 1 < hi && s[d] == '.';
      assert MatchesWith(s, p, d);
    }
    if exists d :: MatchesWith(s, p, d) {
      var d :| MatchesWith(s, p, d);
      // the run of non-spaces after '@' reaches past d + 1
      assert d + 1 < hi;
    }
  }

  lemma {:induction false} MatchFromMeans(s: string, p: nat)
    requires p <= |s|
    ensures MatchFrom(s, p) <==> exists q :: p <= q < |s| && MatchAt(s, q)
    decreases |s| - p
  {
    if p < |s| {
      MatchFromMeans(s, p + 1);
      if exists q :: p <= q < |s| && MatchAt(s, q) {
        var q :| p <= q < |s| && MatchAt(s, q);
        if q > p { assert p + 1 <= q < |s| && MatchAt(s, q); }
      }
    }
  }

  /**
   * The matcher accepts exactly the strings of `EmailSpec`: an '@' preceded by
   * a non-space, then non-spaces, '.', and a non-space, anywhere in the string.
   */
  lemma EmailMatchesSpec(e: string)
    ensures IsValidEmail(e) <==> EmailSpec(e)
  {
    MatchFromMeans(e, 0);
    if IsValidEmail(e) {
      var p :| 0 <= p < |e| && MatchAt(e, p);
      MatchAtMeans(e, p);
    }
    if EmailSpec(e) {
      var p, d :| MatchesWith(e, p, d);
      MatchAtMeans(e, p);
    }
  }

  /** The pattern is not anchored: text around a matching address does not matter. */
  lemma EmailSurroundingsFree(pre: string, e: string, post: string)
    requires IsValidEmail(e)
    ensures IsValidEmail(pre + e + post)
  {
    EmailMatchesSpec(e);
    var p, d :| MatchesWith(e, p, d);
    var s := pre + e + post;
    var off := |pre|;
    forall k | p + off < k <= d + 1 + off ensures !IsSpace(s[k]) {
      assert s[k] == e[k - off];
    }
    assert s[p + off] == '@' && s[d + off] == '.' && s[p + off - 1] == e[p - 1];
    assert MatchesWith(s, p + off, d + off);
    EmailMatchesSpec(s);
  }

  // ---------------------------------------------------------------------------
  // Password and the submit chain

  /** The password rule of src/components/LoginForm.tsx:50: at least six characters. */
  predicate IsValidPassword(pw: string)
  {
    |pw| >= MinPasswordLength
  }

  /** The values handed to `onSubmit`. */
  datatype AuthData = AuthData(email: string, password: string, username: string)

  /** What a submit does: report the first failed check, or call `onSubmit`. */
  datatype SubmitResult = ValidationError(message: string) | Submitted(data: AuthData)

  /**
   * `handleSubmit` (src/components/LoginForm.tsx:32-57). A field that is not
   * rendered or is empty reads as ''. The username is checked only in signup
   * mode; checks run username, email, password and stop at the first failure.
   * In login mode the username input is not rendered, so the page passes
   * `None` there; the function takes whatever the caller gives.
   */
  function HandleSubmit(isSignup: bool, username: Option<string>, email: Option<string>, password: Option<string>): (r: SubmitResult)
    ensures var u, e, pw := username.GetOr(""), email.GetOr(""), password.GetOr("");
            && (r.Submitted? <==> (!isSignup || IsValidUsername(u)) && IsValidEmail(e) && IsValidPassword(pw))
            && (r.Submitted? ==> r.data == AuthData(e, pw, u))
            && (isSignup && !IsValidUsername(u) ==> r == ValidationError(UsernameError))
            && ((!isSignup || IsValidUsername(u)) && !IsValidEmail(e) ==> r == ValidationError(EmailError))
            && ((!isSignup || IsValidUsername(u)) && IsValidEmail(e) && !IsValidPassword(pw) ==> r == ValidationError(PasswordError))
  {
    var e := email.GetOr("");
    var pw := password.GetOr("");
    var u := username.GetOr("");
    if isSignup && !IsValidUsername(u) then ValidationError(UsernameError)
    else if !IsValidEmail(e) then ValidationError(EmailError)
    else if !IsValidPassword(pw) then ValidationError(PasswordError)
    else Submitted(AuthData(e, pw, u))
  }

  /** In login mode the username never decides anything: whether and how a submit fails is the same for every username. */
  lemma LoginIgnoresUsername(u1: Option<string>, u2: Option<string>, email: Option<string>, password: Option<string>)
    ensures HandleSubmit(false, u1, email, password).Submitted? == HandleSubmit(false, u2, email, password).Submitted?
    ensures HandleSubmit(false, u1, email, password).ValidationError? ==>
              HandleSubmit(false, u1, email, password) == HandleSubmit(false, u2, email, password)
  {
  }

  /** Only the first failing check is reported: a bad username hides a bad email and a bad password. */
  lemma FirstFailureWins(username: string, email: Option<string>, password: Option<string>)
    requires !UsernameSpec(username)
    ensures HandleSubmit(true, Some(username), email, password) == ValidationError(UsernameError)
  {
    UsernameMatchesSpec(username);
  }
}
