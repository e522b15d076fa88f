/**
 * The registration form's validation: Python's `str.strip`, the e-mail regular expression, the
 * password length rule, and the order in which the form's checks reject an input before the
 * controller is called.
 */
module RegisterView {
  import opened Wrappers
  import opened Models
  import opened Store
  import Auth

  // ---------------------------------------------------------------- strip

  /** The characters Python's `str.isspace` accepts. */
  predicate IsSpace(ch: char)
  {
    || ch == ' ' || ch == '\t' || ch == '\n' || ch == '\r' || ch == '\U{000B}' || ch == '\U{000C}'
    || ('\U{001C}' <= ch <= '\U{001F}') || ch == '\U{0085}' || ch == '\U{00A0}' || ch == '\U{1680}'
    || ('\U{2000}' <= ch <= '\U{200A}') || ch == '\U{2028}' || ch == '\U{2029}' || ch == '\U{202F}'
    || ch == '\U{205F}' || ch == '\U{3000}'
  }

  /** The first position at or after `i` that does not hold whitespace, or the length. */
  function SkipSpace(s: string, i: nat): (k: nat)
    requires i <= |s|
    ensures i <= k <= |s|
    ensures forall m :: i <= m < k ==> IsSpace(s[m])
    ensures k < |s| ==> !IsSpace(s[k])
    decreases |s| - i
  {
    if i < |s| && IsSpace(s[i]) then SkipSpace(s, i + 1) else i
  }

  /** The end of `s[lo..j]` once trailing whitespace is dropped. */
  function SkipSpaceBack(s: string, lo: nat, j: nat): (k: nat)
    requires lo <= j <= |s|
    ensures lo <= k <= j
    ensures forall m :: k <= m < j ==> IsSpace(s[m])
    ensures k > lo ==> !IsSpace(s[k - 1])
  {
    if j > lo && IsSpace(s[j - 1]) then SkipSpaceBack(s, lo, j - 1) else j
  }

  /** Everything in `s` before position `i` and from `i + n` on is whitespace. */
  ghost predicate SpaceOutside(s: string, i: int, n: int)
  {
    && 0 <= i && 0 <= n && i + n <= |s|
    && (forall k :: 0 <= k < i ==> IsSpace(s[k]))
    && (forall k :: i + n <= k < |s| ==> IsSpace(s[k]))
  }

  /** `str.strip()`: the longest middle part of the text that neither starts nor ends with whitespace. */
  function Strip(s: string): (r: string)
    ensures |r| <= |s|
    ensures |r| > 0 ==> !IsSpace(r[0]) && !IsSpace(r[|r| - 1])
    ensures exists i :: SpaceOutside(s, i, |r|) && r == s[i..i + |r|]
  {
    var i := SkipSpace(s, 0);
    var j := SkipSpaceBack(s, i, |s|);
    assert SpaceOutside(s, i, j - i);
    s[i..j]
  }

  /** A text that neither starts nor ends with whitespace is its own strip. */
  lemma StripFixed(s: string)
    requires |s| > 0 ==> !IsSpace(s[0]) && !IsSpace(s[|s| - 1])
    ensures Strip(s) == s
  {
    var r := Strip(s);
    var i :| SpaceOutside(s, i, |r|) && r == s[i..i + |r|];
    if |s| > 0 {
      assert i == 0;
      assert i + |r| == |s|;
    }
  }

  /** Stripping twice is stripping once. */
  lemma StripIdempotent(s: string)
    ensures Strip(Strip(s)) == Strip(s)
  {
    StripFixed(Strip(s));
  }

  /** A field strips to nothing exactly when it is all whitespace, which the form then treats as missing. */
  lemma StripEmptyIffBlank(s: string)
    ensures Strip(s) == "" <==> forall k :: 0 <= k < |s| ==> IsSpace(s[k])
  {
    var r := Strip(s);
    var i :| SpaceOutside(s, i, |r|) && r == s[i..i + |r|];
    if r != "" {
      assert r[0] == s[i] && !IsSpace(s[i]);
    }
  }

  // ---------------------------------------------------------------- e-mail

  /**
   * The text splits as `a@b.c` with `a`, `b` and `c` non-empty and free of `@`: the only `@`
   * is at `i`, a `.` is at `j`. This is what `^[^@]+@[^@]+\.[^@]+` matches when it spans the text.
   */
  ghost predicate SplitsAt(s: string, i: int, j: int)
  {
    && 0 < i && i + 1 < j && j + 1 < |s|
    && s[i] == '@' && s[j] == '.'
    && forall k :: 0 <= k < |s| && k != i ==> s[k] != '@'
  }

  /** The pattern spans the whole text at some split. */
  ghost predicate Spans(s: string)
  {
    exists i, j :: SplitsAt(s, i, j)
  }

  /**
   * `re.match(r"^[^@]+@[^@]+\.[^@]+$", s)` succeeds: the pattern spans the text, or the text
   * less a final newline (Python's `$` also matches just before a trailing newline).
   */
  ghost predicate RegexMatches(s: string)
  {
    Spans(s) || (|s| > 0 && s[|s| - 1] == '\n' && Spans(s[..|s| - 1]))
  }

  /** The position of the first `@`, or the length of the text when there is none. */
  function IndexOfAt(s: string): (i: nat)
    ensures i <= |s|
    ensures forall k :: 0 <= k < i ==> s[k] != '@'
    ensures i < |s| ==> s[i] == '@'
  {
    if |s| == 0 then 0
    else if s[0] == '@' then 0
    else
      var k := IndexOfAt(s[1..]);
      assert forall m :: 1 <= m < k + 1 ==> s[m] == s[1..][m - 1];
      k + 1
  }

  /** The index test of valid_email: exactly one `@`, not first, and a `.` at least two places after it and not last. */
  predicate EmailShape(s: string, i: int)
    requires 0 <= i <= |s|
  {
    && 0 < i < |s|
    && (forall k :: i < k < |s| ==> s[k] != '@')
    && exists j | i + 2 <= j <= |s| - 2 :: s[j] == '.'
  }

  /** valid_email: the address matches the pattern; decided by locating the first `@`. */
  function ValidEmail(email: string): (ok: bool)
    ensures ok <==> RegexMatches(email)
  {
    var i := IndexOfAt(email);
    ValidEmailIsRegex(email);
    EmailShape(email, i)
  }

  /** The index test agrees with the pattern. */
  lemma ValidEmailIsRegex(s: string)
    ensures EmailShape(s, IndexOfAt(s)) <==> RegexMatches(s)
  {
    var i := IndexOfAt(s);
    if EmailShape(s, i) {
      var j :| i + 2 <= j <= |s| - 2 && s[j] == '.';
      assert SplitsAt(s, i, j);
    }
    if Spans(s) {
      var a, b :| SplitsAt(s, a, b);
      SplitDecides(s, a, b);
    }
    if |s| > 0 && s[|s| - 1] == '\n' && Spans(s[..|s| - 1]) {
      var a, b :| SplitsAt(s[..|s| - 1], a, b);
      TrailingNewline(s, a, b);
      SplitDecides(s, a, b);
    }
  }

  /** A split fixes the first `@` and passes the index test. */
  lemma SplitDecides(s: string, i: int, j: int)
    requires SplitsAt(s, i, j)
    ensures IndexOfAt(s) == i && EmailShape(s, i)
  {
    assert i + 2 <= j <= |s| - 2 && s[j] == '.';
  }

  /** Because `[^@]` matches a newline, the trailing-newline case of `$` never decides the match. */
  lemma TrailingNewline(s: string, i: int, j: int)
    requires |s| > 0 && s[|s| - 1] == '\n' && SplitsAt(s[..|s| - 1], i, j)
    ensures SplitsAt(s, i, j)
  {
    var t := s[..|s| - 1];
    forall k | 0 <= k < |s| && k != i
      ensures s[k] != '@'
    {
      if k < |s| - 1 {
        assert s[k] == t[k];
      }
    }
  }

  /** Some addresses the check accepts and rejects. */
  lemma ValidEmailExamples()
    ensures ValidEmail("a@b.c")
    ensures ValidEmail("a@b.c.d")
    ensures !ValidEmail("a@b")
    ensures !ValidEmail("@b.c")
    ensures !ValidEmail("a@.c")
    ensures !ValidEmail("a@@b.c")
  {
    assert SplitsAt("a@b.c", 1, 3);
    assert SplitsAt("a@b.c.d", 1, 3);
  }

  // ---------------------------------------------------------------- password

  /** valid_password: at least six characters, spaces included (the password is not stripped). */
  function ValidPassword(password: string): (ok: bool)
    ensures ok <==> |password| >= 6
  {
    |password| >= 6
  }

  // ---------------------------------------------------------------- the form

  datatype Outcome = MissingFields | UsernameTaken | InvalidEmail | InvalidPassword | RegisterFailed | Registered

  /** The form's checks before the controller is called, in their order; None when all pass. */
  function PreRegisterCheck(usuarios: map<Id, Usuario>, username: string, password: string, email: string, userType: string): Option<Outcome>
  {
    var user := Strip(username);
    var mail := Strip(email);
    if user == "" || mail == "" || password == "" || userType == "" then Some(MissingFields)
    else if Auth.UsernameExists(usuarios, user) then Some(UsernameTaken)
    else if !ValidEmail(mail) then Some(InvalidEmail)
    else if !ValidPassword(password) then Some(InvalidPassword)
    else None
  }

  /** A blank field is reported before any other problem, whatever the database holds. */
  lemma MissingFieldsFirst(usuarios: map<Id, Usuario>, username: string, password: string, email: string, userType: string)
    requires (forall k :: 0 <= k < |username| ==> IsSpace(username[k])) || (forall k :: 0 <= k < |email| ==> IsSpace(email[k]))
      || password == "" || userType == ""
    ensures PreRegisterCheck(usuarios, username, password, email, userType) == Some(MissingFields)
  {
    StripEmptyIffBlank(username);
    StripEmptyIffBlank(email);
  }

  /** The controller is reached only with a new stripped name, a valid stripped address and a long enough password. */
  lemma PassedChecks(usuarios: map<Id, Usuario>, username: string, password: string, email: string, userType: string)
    requires PreRegisterCheck(usuarios, username, password, email, userType).None?
    ensures Strip(username) != "" && userType != ""
    ensures !exists u :: u in usuarios && usuarios[u].nombre == Strip(username)
    ensures RegexMatches(Strip(email))
    ensures |password| >= 6
  {
  }

  /**
   * The name is checked right after the blank test: a name that strips to a stored user's name is
   * reported as taken whatever the address and the password are, valid or not.
   */
  lemma TakenNameReportedFirst(usuarios: map<Id, Usuario>, u: Id, username: string, password: string, email: string, userType: string)
    requires u in usuarios && Strip(username) == usuarios[u].nombre && usuarios[u].nombre != ""
    requires Strip(email) != "" && password != "" && userType != ""
    ensures PreRegisterCheck(usuarios, username, password, email, userType) == Some(UsernameTaken)
  {
  }

  /**
   * Once the name and the address pass, the password alone decides, by its length only: it is
   * not stripped, so six spaces are a valid password and a blank one is missing only when empty.
   */
  lemma PasswordRule(usuarios: map<Id, Usuario>, username: string, password: string, email: string, userType: string)
    requires Strip(username) != "" && Strip(email) != "" && userType != ""
    requires !Auth.UsernameExists(usuarios, Strip(username)) && ValidEmail(Strip(email))
    ensures password == "" ==> PreRegisterCheck(usuarios, username, password, email, userType) == Some(MissingFields)
    ensures 0 < |password| < 6 ==> PreRegisterCheck(usuarios, username, password, email, userType) == Some(InvalidPassword)
    ensures |password| >= 6 ==> PreRegisterCheck(usuarios, username, password, email, userType).None?
  {
  }

  /**
   * The form's register handler: strips the name and the address, runs the checks in order and
   * calls the controller only when all pass. Returns which message the form shows.
   */
  method Register(auth: Auth.AuthController, username: string, password: string, email: string, userType: string,
                  hashpw: string -> string) returns (outcome: Outcome)
    requires auth.Valid()
    modifies auth.session
    ensures auth.Valid() && auth.currentUser == old(auth.currentUser)
    ensures var check := PreRegisterCheck(old(auth.session.usuarios), username, password, email, userType);
      check.Some? ==> outcome == check.value && auth.session.State() == old(auth.session.State())
    ensures outcome == Registered <==>
      && PreRegisterCheck(old(auth.session.usuarios), username, password, email, userType).None?
      && (exists r :: r in old(auth.session.roles) && old(auth.session.roles)[r].nombre == userType)
      && !Auth.EmailExists(old(auth.session.usuarios), Strip(email))
    ensures PreRegisterCheck(old(auth.session.usuarios), username, password, email, userType).None? ==>
      outcome == Registered || outcome == RegisterFailed
    ensures outcome != Registered ==> auth.session.State() == old(auth.session.State())
    ensures outcome == Registered ==>
      auth.session.State() == Auth.RegisterEffect(old(auth.session.State()), Strip(username), Strip(email), hashpw(password), Rol(userType))
  {
    var user := Strip(username);
    var pwd := password;
    var mail := Strip(email);
    if user == "" || mail == "" || pwd == "" || userType == "" {
      return MissingFields;
    }
    if Auth.UsernameExists(auth.session.usuarios, user) {
      return UsernameTaken;
    }
    if !ValidEmail(mail) {
      return InvalidEmail;
    }
    if !ValidPassword(pwd) {
      return InvalidPassword;
    }
    var ok := auth.Register(user, mail, pwd, userType, hashpw);
    if ok {
      outcome := Registered;
    } else {
      outcome := RegisterFailed;
    }
  }
}
