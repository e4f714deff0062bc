/**
 * The registration validators of Projeto/Views/login_view.py and the order in which the
 * registration dialog applies them. The regular expressions are written out as
 * character predicates; character classes are the ASCII ones.
 */
module Validation {
  import opened Wrappers
  import Repository
  import Users

  // ==================== character classes ====================

  predicate IsUpper(c: char) { 'A' <= c <= 'Z' }

  predicate IsLower(c: char) { 'a' <= c <= 'z' }

  predicate IsDigit(c: char) { '0' <= c <= '9' }

  predicate IsLetter(c: char) { IsUpper(c) || IsLower(c) }

  /** The whitespace `str.strip` and `str.split` skip: space, \t to \r, and \x1c to \x1f. */
  predicate IsSpace(c: char) {
    c == ' ' || '\t' <= c <= '\r' || '\U{1c}' <= c <= '\U{1f}'
  }

  /** `[a-zA-Z0-9._%+-]`, the characters of an email's local part. */
  predicate IsLocalChar(c: char) {
    IsLetter(c) || IsDigit(c) || c == '.' || c == '_' || c == '%' || c == '+' || c == '-'
  }

  /** `[a-zA-Z0-9.-]`, the characters of an email's domain. */
  predicate IsDomainChar(c: char) {
    IsLetter(c) || IsDigit(c) || c == '.' || c == '-'
  }

  predicate LocalChars(s: string) { forall k :: 0 <= k < |s| ==> IsLocalChar(s[k]) }

  predicate DomainChars(s: string) { forall k :: 0 <= k < |s| ==> IsDomainChar(s[k]) }

  predicate Letters(s: string) { forall k :: 0 <= k < |s| ==> IsLetter(s[k]) }

  predicate Digits(s: string) { forall k :: 0 <= k < |s| ==> IsDigit(s[k]) }

  /** A match of a pattern ending in `$` may stop just before one final newline. */
  predicate EndsInNewline(s: string) { |s| > 0 && s[|s| - 1] == '\n' }

  // ==================== email ====================

  /** The position of the last `c` in `s`, or None. */
  function LastIndex(s: string, c: char): (r: Option<nat>)
    ensures r.Some? ==> r.value < |s| && s[r.value] == c && forall j :: r.value < j < |s| ==> s[j] != c
    ensures r.None? ==> forall j :: 0 <= j < |s| ==> s[j] != c
  {
    if s == [] then None
    else if s[|s| - 1] == c then Some(|s| - 1)
    else LastIndex(s[..|s| - 1], c)
  }

  /**
   * The shape `local@domain.tld`, stated as the regular expression does: some `@` and
   * some later `.` split the text into a non-empty local part, a non-empty domain and a
   * top-level domain of at least two letters.
   */
  ghost predicate EmailPattern(s: string) {
    exists at: nat, d: nat :: 0 < at && at + 1 < d && d + 3 <= |s| && s[at] == '@' && s[d] == '.'
      && LocalChars(s[..at]) && DomainChars(s[at + 1..d]) && Letters(s[d + 1..])
  }

  /** The check as computed: the first `@` and the last `.` must be those split points. */
  predicate EmailBody(s: string) {
    match Repository.FindIndex(s, (c: char) => c, '@')
    case None => false
    case Some(at) =>
      match LastIndex(s, '.')
      case None => false
      case Some(d) =>
        0 < at && at + 1 < d && d + 3 <= |s|
        && LocalChars(s[..at]) && DomainChars(s[at + 1..d]) && Letters(s[d + 1..])
  }

  /** Every text the computed check accepts has the pattern's shape. */
  lemma EmailBodySound(s: string)
    requires EmailBody(s)
    ensures EmailPattern(s)
  {
    var at := Repository.FindIndex(s, (c: char) => c, '@').value;
    var d := LastIndex(s, '.').value;
        assert s[at] == '@' && s[d] == '.';
  }

  /** An `@` preceded only by local-part characters is the first `@`. */
  lemma FirstAtIs(s: string, at: nat)
    requires at < |s| && s[at] == '@' && LocalChars(s[..at])
    ensures Repository.FindIndex(s, (c: char) => c, '@') == Some(at)
  {
    forall j | 0 <= j < at ensures s[j] != '@' {
      assert s[..at][j] == s[j];
    }
      }

  /** A `.` followed only by letters is the last `.`. */
  lemma LastDotIs(s: string, d: nat)
    requires d < |s| && s[d] == '.' && Letters(s[d + 1..])
    ensures LastIndex(s, '.') == Some(d)
  {
    forall j | d < j < |s| ensures s[j] != '.' {
      assert s[d + 1..][j - d - 1] == s[j];
    }
  }

  /** Every text of the pattern's shape is accepted: its `@` is the first one and its `.` the last one. */
  lemma EmailBodyComplete(s: string)
    requires EmailPattern(s)
    ensures EmailBody(s)
  {
    var at: nat, d: nat :| 0 < at && at + 1 < d && d + 3 <= |s| && s[at] == '@' && s[d] == '.'
      && LocalChars(s[..at]) && DomainChars(s[at + 1..d]) && Letters(s[d + 1..]);
    FirstAtIs(s, at);
    LastDotIs(s, d);
  }

  /** The computed check accepts exactly the texts of the pattern's shape. */
  lemma EmailBodyIff(s: string)
    ensures EmailBody(s) <==> EmailPattern(s)
  {
    if EmailBody(s) {
      EmailBodySound(s);
    }
    if EmailPattern(s) {
      EmailBodyComplete(s);
    }
  }

  /** `validate_email`: the whole text, or the text before one final newline, has the shape `local@domain.tld`. */
  function ValidateEmail(email: string): (ok: bool)
    ensures ok <==> EmailPattern(email) || (EndsInNewline(email) && EmailPattern(email[..|email| - 1]))
  {
    EmailBodyIff(email);
    EmailBodyIff(if EndsInNewline(email) then email[..|email| - 1] else email);
    EmailBody(email) || (EndsInNewline(email) && EmailBody(email[..|email| - 1]))
  }

  /** A valid email holds an `@`. */
  lemma ValidEmailHasAt(email: string)
    requires ValidateEmail(email)
    ensures '@' in email
  {
    if EmailPattern(email) {
      var at: nat, d: nat :| 0 < at && at + 1 < d && d + 3 <= |email| && email[at] == '@' && email[d] == '.'
        && LocalChars(email[..at]) && DomainChars(email[at + 1..d]) && Letters(email[d + 1..]);
      assert email[at] in email;
    } else {
      var body := email[..|email| - 1];
      var at: nat, d: nat :| 0 < at && at + 1 < d && d + 3 <= |body| && body[at] == '@' && body[d] == '.'
        && LocalChars(body[..at]) && DomainChars(body[at + 1..d]) && Letters(body[d + 1..]);
      assert email[at] == '@';
    }
  }

  // ==================== phone ====================

  function NotBlank(c: char): bool { c != ' ' }

  /** `phone.replace(" ", "")`: every space removed, every other character kept in order. */
  function RemoveSpaces(s: string): (r: string)
    ensures forall k :: 0 <= k < |r| ==> r[k] != ' '
    ensures |r| <= |s|
  {
    Repository.Filter(s, NotBlank)
  }

  /** Spaces are removed and nothing else: every other character occurs as often as before. */
  lemma RemoveSpacesCount(s: string, c: char)
    requires c != ' '
    ensures multiset(RemoveSpaces(s))[c] == multiset(s)[c]
  {
    Repository.FilterCount(s, NotBlank, c);
  }

  /** `[923]\d{8}`: nine digits, the first of them 9, 2 or 3. */
  predicate PhoneDigits(t: string) {
    |t| == 9 && (t[0] == '9' || t[0] == '2' || t[0] == '3') && Digits(t[1..])
  }

  /** `validate_phone`: after removing spaces, nine digits starting with 9, 2 or 3 (a final newline aside). */
  function ValidatePhone(phone: string): (ok: bool)
    ensures ok <==> var t := RemoveSpaces(phone);
                    (|t| == 9 || (|t| == 10 && t[9] == '\n')) && t[0] in "923" && Digits(t[..9])
  {
    var t := RemoveSpaces(phone);
    if |t| == 9 || |t| == 10 then
      assert Digits(t[..9]) <==> IsDigit(t[0]) && Digits(t[1..9]) by {
        if IsDigit(t[0]) && Digits(t[1..9]) {
          forall k | 0 <= k < 9 ensures IsDigit(t[..9][k]) {
            if k > 0 { assert t[1..9][k - 1] == t[k]; }
          }
        }
        if Digits(t[..9]) {
          forall k | 0 <= k < 8 ensures IsDigit(t[1..9][k]) {
            assert t[..9][k + 1] == t[k + 1];
          }
        }
      }
      assert t[..9][1..] == t[1..9];
      assert |t| == 9 ==> t[1..] == t[1..9];
      PhoneDigits(t) || (|t| == 10 && t[9] == '\n' && PhoneDigits(t[..9]))
    else
      false
  }

  /** The pattern `^[923]\d{8}$`: nine digits, the first 9, 2 or 3, optionally followed by one newline. */
  ghost predicate PhonePattern(t: string) {
    exists d: string :: |d| == 9 && d[0] in "923" && Digits(d) && (t == d || t == d + "\n")
  }

  /** `validate_phone` accepts exactly the numbers that match the pattern once spaces are removed. */
  lemma ValidatePhoneIff(phone: string)
    ensures ValidatePhone(phone) <==> PhonePattern(RemoveSpaces(phone))
  {
    var t := RemoveSpaces(phone);
    if ValidatePhone(phone) {
      var d := t[..9];
      assert t == d || t == d + "\n";
      assert d[0] == t[0];
    }
    if PhonePattern(t) {
      var d: string :| |d| == 9 && d[0] in "923" && Digits(d) && (t == d || t == d + "\n");
      assert t[..9] == d;
    }
  }

  /** Spaces anywhere in the number do not change the verdict. */
  lemma ValidatePhoneIgnoresSpaces(a: string, b: string)
    ensures ValidatePhone(a + " " + b) == ValidatePhone(a + b)
  {
    assert Repository.Filter(" ", NotBlank) == [];
    Repository.FilterConcat(a, " ", NotBlank);
    Repository.FilterConcat(a + " ", b, NotBlank);
    Repository.FilterConcat(a, b, NotBlank);
    assert Repository.Filter(a + " ", NotBlank) == Repository.Filter(a, NotBlank);
    assert RemoveSpaces(a + " " + b) == RemoveSpaces(a + b);
  }

  // ==================== password ====================

  const TooShort := "Password deve ter pelo menos 8 caracteres"
  const NoUpper := "Password deve ter pelo menos 1 letra maiúscula"
  const NoLower := "Password deve ter pelo menos 1 letra minúscula"
  const NoDigit := "Password deve ter pelo menos 1 número"

  predicate HasUpper(p: string) { exists k :: 0 <= k < |p| && IsUpper(p[k]) }

  predicate HasLower(p: string) { exists k :: 0 <= k < |p| && IsLower(p[k]) }

  predicate HasDigit(p: string) { exists k :: 0 <= k < |p| && IsDigit(p[k]) }

  /**
   * `validate_password`: at least 8 characters, an upper-case letter, a lower-case
   * letter and a digit, checked in that order; the first failing check names the message.
   */
  function ValidatePassword(p: string): (r: (bool, string))
    ensures r.0 <==> |p| >= 8 && HasUpper(p) && HasLower(p) && HasDigit(p)
    ensures r.0 <==> r.1 == ""
    ensures |p| < 8 ==> r.1 == TooShort
    ensures |p| >= 8 && !HasUpper(p) ==> r.1 == NoUpper
    ensures |p| >= 8 && HasUpper(p) && !HasLower(p) ==> r.1 == NoLower
    ensures |p| >= 8 && HasUpper(p) && HasLower(p) && !HasDigit(p) ==> r.1 == NoDigit
  {
    if |p| < 8 then (false, TooShort)
    else if !HasUpper(p) then (false, NoUpper)
    else if !HasLower(p) then (false, NoLower)
    else if !HasDigit(p) then (false, NoDigit)
    else (true, "")
  }

  /** A valid password holds at least three distinct characters: an upper-case letter, a lower-case letter and a digit. */
  lemma ValidPasswordHasThreeKinds(p: string)
    requires ValidatePassword(p).0
    ensures exists i, j, k :: 0 <= i < |p| && 0 <= j < |p| && 0 <= k < |p| && p[i] != p[j] && p[j] != p[k] && p[i] != p[k]
  {
    var i :| 0 <= i < |p| && IsUpper(p[i]);
    var j :| 0 <= j < |p| && IsLower(p[j]);
    var k :| 0 <= k < |p| && IsDigit(p[k]);
    assert p[i] != p[j] && p[j] != p[k] && p[i] != p[k];
  }

  // ==================== name ====================

  predicate AllSpace(s: string) { forall k :: 0 <= k < |s| ==> IsSpace(s[k]) }

  /** The number of whitespace characters at the start of `s`. */
  function LeadingSpaces(s: string): (i: nat)
    ensures i <= |s| && AllSpace(s[..i])
    ensures i < |s| ==> !IsSpace(s[i])
  {
    if s == [] || !IsSpace(s[0]) then 0
    else
      var i := 1 + LeadingSpaces(s[1..]);
      assert forall k :: 1 <= k < i ==> s[k] == s[1..][..i - 1][k - 1];
      i
  }

  /** Where the whitespace at the end of `s` begins. */
  function TrailingSpaces(s: string): (j: nat)
    ensures j <= |s| && AllSpace(s[j..])
    ensures j > 0 ==> !IsSpace(s[j - 1])
  {
    if s == [] || !IsSpace(s[|s| - 1]) then |s|
    else
      var j := TrailingSpaces(s[..|s| - 1]);
      assert forall k :: j <= k < |s| - 1 ==> s[k] == s[..|s| - 1][j..][k - j];
      j
  }

  /** `str.strip()`: the text with the whitespace at both ends removed. */
  function Strip(s: string): (r: string)
    ensures exists i, j :: 0 <= i <= j <= |s| && r == s[i..j] && AllSpace(s[..i]) && AllSpace(s[j..])
    ensures r == [] || (!IsSpace(r[0]) && !IsSpace(r[|r| - 1]))
  {
    var i := LeadingSpaces(s);
    var j := i + TrailingSpaces(s[i..]);
    assert s[i..][j - i..] == s[j..];
    s[i..j]
  }

  /** Position `k` starts a word: a non-space character at the start or after a space. */
  predicate WordStart(s: string, k: nat)
    requires k < |s|
  {
    !IsSpace(s[k]) && (k == 0 || IsSpace(s[k - 1]))
  }

  /** `len(s.split())`: the number of maximal runs of non-space characters. */
  function WordCount(s: string): nat {
    if s == [] then 0
    else WordCount(s[..|s| - 1]) + if WordStart(s, |s| - 1) then 1 else 0
  }

  /** A text with a word has a non-space character. */
  lemma {:induction false} NonSpaceAt(s: string) returns (i: nat)
    requires WordCount(s) >= 1
    ensures i < |s| && !IsSpace(s[i])
  {
    var init := s[..|s| - 1];
    if WordCount(init) >= 1 {
      i := NonSpaceAt(init);
      assert init[i] == s[i];
    } else {
      i := |s| - 1;
    }
  }

  /** A non-space character makes a word. */
  lemma {:induction false} OneWordAt(s: string, i: nat)
    requires i < |s| && !IsSpace(s[i])
    ensures WordCount(s) >= 1
  {
    var n := |s|;
    var init := s[..n - 1];
    if i < n - 1 {
      assert init[i] == s[i];
      OneWordAt(init, i);
    } else if n > 1 && !IsSpace(s[n - 2]) {
      assert init[n - 2] == s[n - 2];
      OneWordAt(init, n - 2);
    } else {
      assert WordStart(s, n - 1);
    }
  }

  /** A text has a word exactly when it has a non-space character. */
  lemma OneWordIff(s: string)
    ensures WordCount(s) >= 1 <==> exists i :: 0 <= i < |s| && !IsSpace(s[i])
  {
    if WordCount(s) >= 1 {
      var i := NonSpaceAt(s);
    }
    if exists i :: 0 <= i < |s| && !IsSpace(s[i]) {
      var i :| 0 <= i < |s| && !IsSpace(s[i]);
      OneWordAt(s, i);
    }
  }

  /** Some space lies between two non-space characters of `s`. */
  ghost predicate TwoWords(s: string) {
    exists i, j, k :: 0 <= i < j < k < |s| && !IsSpace(s[i]) && IsSpace(s[j]) && !IsSpace(s[k])
  }

  /** Two words are two non-space characters with a space between them. */
  lemma {:induction false} TwoWordsWitness(s: string) returns (i: nat, j: nat, k: nat)
    requires WordCount(s) >= 2
    ensures i < j < k < |s| && !IsSpace(s[i]) && IsSpace(s[j]) && !IsSpace(s[k])
  {
    var n := |s|;
    var init := s[..n - 1];
    if WordCount(init) >= 2 {
      i, j, k := TwoWordsWitness(init);
      assert init[i] == s[i];
      assert init[j] == s[j];
      assert init[k] == s[k];
    } else {
      assert WordStart(s, n - 1);
      i := NonSpaceAt(init);
      assert init[i] == s[i];
      j, k := n - 2, n - 1;
    }
  }

  lemma TwoWordsSound(s: string)
    requires WordCount(s) >= 2
    ensures TwoWords(s)
  {
    var i, j, k := TwoWordsWitness(s);
  }

  /** A space between two non-space characters at known positions makes two words. */
  lemma {:induction false} TwoWordsAt(s: string, i: nat, j: nat, k: nat)
    requires i < j < k < |s| && !IsSpace(s[i]) && IsSpace(s[j]) && !IsSpace(s[k])
    ensures WordCount(s) >= 2
  {
    var n := |s|;
    var init := s[..n - 1];
    assert init[i] == s[i];
    assert init[j] == s[j];
    if k < n - 1 {
      assert init[k] == s[k];
      TwoWordsAt(init, i, j, k);
    } else if !IsSpace(s[n - 2]) {
      assert init[n - 2] == s[n - 2];
      TwoWordsAt(init, i, j, n - 2);
    } else {
      OneWordAt(init, i);
      assert WordStart(s, n - 1);
    }
  }

  lemma TwoWordsComplete(s: string)
    requires TwoWords(s)
    ensures WordCount(s) >= 2
  {
    var i, j, k :| 0 <= i < j < k < |s| && !IsSpace(s[i]) && IsSpace(s[j]) && !IsSpace(s[k]);
    TwoWordsAt(s, i, j, k);
  }

  /** `len(s.split()) >= 2` exactly when some space lies between two non-space characters. */
  lemma TwoWordsIff(s: string)
    ensures WordCount(s) >= 2 <==> TwoWords(s)
  {
    if WordCount(s) >= 2 {
      TwoWordsSound(s);
    }
    if TwoWords(s) {
      TwoWordsComplete(s);
    }
  }

  const NameTooShort := "Nome deve ter pelo menos 3 caracteres"
  const NameNotFull := "Introduza o nome completo (nome e apelido)"

  /** `validate_name`: at least 3 characters once stripped, then at least two words. */
  function ValidateName(name: string): (r: (bool, string))
    ensures r.0 <==> |Strip(name)| >= 3 && WordCount(name) >= 2
    ensures r.0 <==> r.1 == ""
    ensures |Strip(name)| < 3 ==> r.1 == NameTooShort
    ensures |Strip(name)| >= 3 && WordCount(name) < 2 ==> r.1 == NameNotFull
  {
    if |Strip(name)| < 3 then (false, NameTooShort)
    else if WordCount(name) < 2 then (false, NameNotFull)
    else (true, "")
  }

  // ==================== registration ====================

  /** What the registration dialog does with the submitted fields, the first failing check winning. */
  datatype Outcome =
    | MissingFields
    | InvalidName(message: string)
    | InvalidEmail
    | EmailTaken
    | InvalidPhone
    | InvalidPassword(message: string)
    | PasswordMismatch
    | Registered

  /** `all(fields)`: every field is a non-empty string. */
  predicate Filled(fields: seq<string>) {
    forall k :: 0 <= k < |fields| ==> fields[k] != ""
  }

  /**
   * `confirm_register`'s checks over the stripped name, email, phone and address and the
   * raw passwords: all fields filled, name, email shape, email unused, phone, password,
   * passwords equal.
   */
  function Check(name: string, email: string, phone: string, address: string, password: string,
                 confirmPassword: string, users: seq<Users.User>): (r: Outcome)
    ensures r == Registered <==>
      Filled([name, email, phone, address, password, confirmPassword])
      && ValidateName(name).0 && ValidateEmail(email) && Users.FindByEmail(users, email).None?
      && ValidatePhone(phone) && ValidatePassword(password).0 && password == confirmPassword
    ensures r == MissingFields <==> !Filled([name, email, phone, address, password, confirmPassword])
    ensures r.InvalidName? <==> (Filled([name, email, phone, address, password, confirmPassword]) && !ValidateName(name).0)
    ensures r == InvalidEmail <==> (Filled([name, email, phone, address, password, confirmPassword]) && ValidateName(name).0 && !ValidateEmail(email))
    ensures r == EmailTaken <==> (Filled([name, email, phone, address, password, confirmPassword]) && ValidateName(name).0 && ValidateEmail(email) && Users.FindByEmail(users, email).Some?)
    ensures r == InvalidPhone <==>
      (Filled([name, email, phone, address, password, confirmPassword]) && ValidateName(name).0 && ValidateEmail(email) && Users.FindByEmail(users, email).None? && !ValidatePhone(phone))
    ensures r.InvalidPassword? <==>
      (Filled([name, email, phone, address, password, confirmPassword]) && ValidateName(name).0 && ValidateEmail(email) && Users.FindByEmail(users, email).None? && ValidatePhone(phone) && !ValidatePassword(password).0)
    ensures r == PasswordMismatch <==>
      (Filled([name, email, phone, address, password, confirmPassword]) && ValidateName(name).0 && ValidateEmail(email) && Users.FindByEmail(users, email).None? && ValidatePhone(phone) && ValidatePassword(password).0 && password != confirmPassword)
    ensures r.InvalidName? ==> r.message == ValidateName(name).1 && r.message != ""
    ensures r.InvalidPassword? ==> r.message == ValidatePassword(password).1 && r.message != ""
  {
    if !Filled([name, email, phone, address, password, confirmPassword]) then
      MissingFields
    else if !ValidateName(name).0 then InvalidName(ValidateName(name).1)
    else if !ValidateEmail(email) then InvalidEmail
    else if Users.FindByEmail(users, email).Some? then EmailTaken
    else if !ValidatePhone(phone) then InvalidPhone
    else if !ValidatePassword(password).0 then InvalidPassword(ValidatePassword(password).1)
    else if password != confirmPassword then PasswordMismatch
    else Registered
  }

  /** A registration the checks accept keeps the users' emails unique. */
  lemma RegisteredKeepsEmailsUnique(name: string, email: string, phone: string, address: string, password: string,
                                    confirmPassword: string, users: seq<Users.User>, id: int)
    requires Users.EmailsUnique(users)
    requires Check(name, email, phone, address, password, confirmPassword, users) == Registered
    ensures Users.EmailsUnique(users + [Users.Client(id, name, email, password, address, phone)])
  {
    var users2 := users + [Users.Client(id, name, email, password, address, phone)];
    forall i, j | 0 <= i < j < |users2| ensures users2[i].email != users2[j].email {
      if j == |users| {
        assert users2[i] == users[i];
      } else {
        assert users2[i] == users[i] && users2[j] == users[j];
      }
    }
  }

  /**
   * `confirm_register`: the fields are stripped (the passwords are not), checked in
   * order, and a new client is created only when every check passes.
   */
  method ConfirmRegister(file: Users.UserFile, nameField: string, emailField: string, phoneField: string,
                         addressField: string, password: string, confirmPassword: string) returns (r: Outcome)
    modifies file
    ensures r == Check(Strip(nameField), Strip(emailField), Strip(phoneField), Strip(addressField),
                       password, confirmPassword, old(file.rows))
    ensures r == Registered ==>
      file.rows == old(file.rows) + [Users.Client(Users.NextId(old(file.rows)), Strip(nameField), Strip(emailField),
                                                  password, Strip(addressField), Strip(phoneField))]
    ensures r != Registered ==> file.rows == old(file.rows)
    ensures old(Users.EmailsUnique(file.rows)) ==> Users.EmailsUnique(file.rows)
  {
    var name, email, phone, address := Strip(nameField), Strip(emailField), Strip(phoneField), Strip(addressField);
    r := Check(name, email, phone, address, password, confirmPassword, file.rows);
    if r == Registered {
      ghost var before := file.rows;
      var _ := Users.CreateClient(file, name, email, password, address, phone);
      if Users.EmailsUnique(before) {
        RegisteredKeepsEmailsUnique(name, email, phone, address, password, confirmPassword, before, Users.NextId(before));
      }
    }
  }
}
