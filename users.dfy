/** The User entity: its field constraints, its role default and its
    timestamp hooks. Timestamps (LocalDateTime) are clock ticks. */
module Users {
  import opened Wrappers
  import opened Constraints

  datatype UserRole = Admin | Librarian | Reader

  datatype User = User(
    id: Option<int>,
    username: Option<string>,
    password: Option<string>,
    name: Option<string>,
    email: Option<string>,
    phone: Option<string>,
    role: Option<UserRole>,
    createdAt: Option<int>,
    updatedAt: Option<int>)

  /** `new User()`: every field null except the role, which is READER. */
  function NewUser(): (u: User)
    ensures u.role == Some(Reader)
    ensures u.id.None? && u.username.None? && u.password.None? && u.name.None?
    ensures u.email.None? && u.phone.None?
    ensures u.createdAt.None? && u.updatedAt.None?
  {
    User(None, None, None, None, None, None, Some(Reader), None, None)
  }

  /** @NotBlank @Size(min = 3, max = 50) on the username. */
  predicate UsernameValid(username: Option<string>) {
    NotBlank(username) && SizeWithin(username, 3, 50)
  }

  /** @NotBlank @Size(min = 6) on the password. */
  predicate PasswordValid(password: Option<string>) {
    NotBlank(password) && SizeAtLeast(password, 6)
  }

  /** @NotBlank @Size(max = 50) on the name. */
  predicate NameValid(name: Option<string>) {
    NotBlank(name) && SizeWithin(name, 0, 50)
  }

  predicate IsDigit(c: char) {
    '0' <= c <= '9'
  }

  predicate AllDigits(s: string) {
    forall i :: 0 <= i < |s| ==> IsDigit(s[i])
  }

  /** @Pattern("^1[3-9]\d{9}$"), where a null phone is valid: a 1, a digit
      from 3 to 9, then nine digits. */
  predicate PhoneValid(phone: Option<string>) {
    phone.None? ||
    (var p := phone.value;
     |p| == 11 && p[0] == '1' && '3' <= p[1] <= '9' && AllDigits(p[2..]))
  }

  /** The constraints Bean Validation checks on a User (the @Email check on
      the email is not part of this model). */
  predicate UserValid(u: User) {
    UsernameValid(u.username) && PasswordValid(u.password) && NameValid(u.name) &&
    PhoneValid(u.phone)
  }

  lemma UsernameValidIff(username: string)
    ensures UsernameValid(Some(username)) <==>
      3 <= |username| <= 50 && exists i :: 0 <= i < |username| && !IsWhitespace(username[i])
  {
    NotBlankIff(username);
  }

  lemma PasswordValidIff(password: string)
    ensures PasswordValid(Some(password)) <==>
      6 <= |password| && exists i :: 0 <= i < |password| && !IsWhitespace(password[i])
  {
    NotBlankIff(password);
  }

  lemma NameValidIff(name: string)
    ensures NameValid(Some(name)) <==>
      |name| <= 50 && exists i :: 0 <= i < |name| && !IsWhitespace(name[i])
  {
    NotBlankIff(name);
  }

  /** A fresh user fails validation until username, password and name are set. */
  lemma NewUserInvalid()
    ensures !UserValid(NewUser())
  {
  }

  function Pow10(n: nat): (p: nat)
    ensures p >= 1
  {
    if n == 0 then 1 else 10 * Pow10(n - 1)
  }

  function DigitOf(c: char): (d: nat)
    requires IsDigit(c)
    ensures d < 10
  {
    c as int - '0' as int
  }

  /** The number a string of decimal digits denotes. */
  function DigitsValue(s: string): (v: nat)
    requires AllDigits(s)
  {
    if |s| == 0 then 0 else DigitsValue(s[..|s| - 1]) * 10 + DigitOf(s[|s| - 1])
  }

  lemma {:induction false} DigitsValueBound(s: string)
    requires AllDigits(s)
    ensures DigitsValue(s) < Pow10(|s|)
  {
    if |s| > 0 {
      DigitsValueBound(s[..|s| - 1]);
    }
  }

  lemma ShiftDigit(x: int, p: int, y: int, d: int)
    ensures (x * p + y) * 10 + d == x * (10 * p) + (y * 10 + d)
  {
  }

  lemma {:induction false} DigitsValueAppend(a: string, b: string)
    requires AllDigits(a) && AllDigits(b)
    ensures AllDigits(a + b)
    ensures DigitsValue(a + b) == DigitsValue(a) * Pow10(|b|) + DigitsValue(b)
  {
    assert AllDigits(a + b) by {
      forall i | 0 <= i < |a + b| ensures IsDigit((a + b)[i]) {
        if i >= |a| {
          assert (a + b)[i] == b[i - |a|];
        }
      }
    }
    if |b| > 0 {
      var b' := b[..|b| - 1];
      var d := DigitOf(b[|b| - 1]);
      assert (a + b)[..|a + b| - 1] == a + b';
      assert (a + b)[|a + b| - 1] == b[|b| - 1];
      DigitsValueAppend(a, b');
      assert DigitsValue(a + b) == DigitsValue(a + b') * 10 + d;
      assert DigitsValue(b) == DigitsValue(b') * 10 + d;
      ShiftDigit(DigitsValue(a), Pow10(|b'|), DigitsValue(b'), d);
    } else {
      assert a + b == a;
    }
  }

  lemma TwoDigits(s: string)
    requires |s| == 2 && AllDigits(s)
    ensures DigitsValue(s) == DigitOf(s[0]) * 10 + DigitOf(s[1])
  {
    var first := s[..1];
    assert first[..0] == [] && first[0] == s[0];
    assert DigitsValue(first) == DigitOf(s[0]);
    assert s[..|s| - 1] == first;
  }

  /** Read as a number, a valid phone is an eleven-digit string whose value
      lies in [13000000000, 20000000000): the pattern and the numeric
      range describe the same set of strings. */
  lemma PhoneValidAsNumber(p: string)
    ensures PhoneValid(Some(p)) <==>
      |p| == 11 && AllDigits(p) && 13000000000 <= DigitsValue(p) < 20000000000
  {
    if |p| == 11 && AllDigits(p[..2]) && AllDigits(p[2..]) {
      assert p == p[..2] + p[2..];
      DigitsValueAppend(p[..2], p[2..]);
      DigitsValueBound(p[2..]);
      assert Pow10(9) == 1000000000;
      TwoDigits(p[..2]);
      var lead := DigitsValue(p[..2]);
      var v := DigitsValue(p);
      assert v == lead * 1000000000 + DigitsValue(p[2..]);
      assert 13 <= lead <= 19 <==> 13000000000 <= v < 20000000000;
    }
    if PhoneValid(Some(p)) {
      assert AllDigits(p[..2]);
    }
    if AllDigits(p) && |p| == 11 {
      assert AllDigits(p[..2]) && AllDigits(p[2..]) by {
        assert forall i :: 0 <= i < 2 ==> p[..2][i] == p[i];
        assert forall i :: 0 <= i < 9 ==> p[2..][i] == p[i + 2];
      }
    }
  }

  /** @PrePersist: both timestamps set from two separate readings of the
      clock; nothing else changes. */
  function OnCreate(u: User, firstReading: int, secondReading: int): (r: User)
    ensures r.createdAt == Some(firstReading) && r.updatedAt == Some(secondReading)
    ensures r.(createdAt := u.createdAt, updatedAt := u.updatedAt) == u
    ensures r.createdAt == r.updatedAt <==> firstReading == secondReading
  {
    u.(createdAt := Some(firstReading), updatedAt := Some(secondReading))
  }

  /** @PreUpdate: only the update timestamp moves. */
  function OnUpdate(u: User, now: int): (r: User)
    ensures r.updatedAt == Some(now)
    ensures r.(updatedAt := u.updatedAt) == u
  {
    u.(updatedAt := Some(now))
  }
}
