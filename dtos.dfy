/**
 * The request and response bodies of the two controllers, and the
 * data-annotation validation ASP.NET Core applies to request bodies before
 * an action runs. A string field that is missing or `null` in the JSON body
 * is `None`.
 */
module Dtos {
  import opened Wrappers
  import opened Numeric
  import opened Clock
  import opened Text

  datatype UsuarioCreateDto = UsuarioCreateDto(usuario: Option<string>, email: Option<string>, senha: Option<string>)

  datatype UsuarioUpdateDto = UsuarioUpdateDto(
    usuario: Option<string>,
    email: Option<string>,
    ativo: Option<bool>,
    rowVersion: Option<seq<Byte>>)

  datatype PasswordChangeDto = PasswordChangeDto(
    senhaAtual: Option<string>,
    novaSenha: Option<string>,
    confirmacaoSenha: Option<string>)

  /** What the API tells about a user: there is no password field. */
  datatype UserSummary = UserSummary(id: int, usuario: string, email: string, ativo: bool, rowVersion: Option<seq<Byte>>)

  datatype PagedResult<T> = PagedResult(items: seq<T>, total: int, page: Int32, pageSize: Int32)

  datatype LoginRequest = LoginRequest(usuario: Option<string>, senha: Option<string>)

  datatype SignupRequest = SignupRequest(usuario: Option<string>, email: Option<string>, senha: Option<string>)

  /** The claims of the signed JWT access token: the user id, the handle and the expiry. */
  datatype AccessToken = AccessToken(subject: int, name: string, expiresAt: Instant)

  datatype AuthResponse = AuthResponse(accessToken: AccessToken, expiresIn: Int32, refreshToken: string, user: UserSummary)

  /** `[Required]` on a string: present and not empty or white space. */
  predicate Required(s: Option<string>) {
    s.Some? && !AllWhiteSpace(s.value)
  }

  /** `[StringLength(max, MinimumLength = min)]`, in UTF-16 code units: an absent value passes. */
  predicate StringLength(s: Option<string>, min: nat, max: nat) {
    s.None? || min <= Utf16Length(s.value) <= max
  }

  /** `[MinLength(min)]`, in UTF-16 code units: an absent value passes. */
  predicate MinLength(s: Option<string>, min: nat) {
    s.None? || min <= Utf16Length(s.value)
  }

  /** The position of the first `c` in `s`, or -1: `string.IndexOf`. */
  function IndexOf(s: string, c: char): (i: int)
    ensures -1 <= i < |s|
    ensures i == -1 <==> c !in s
    ensures i >= 0 ==> s[i] == c && c !in s[..i]
  {
    if s == [] then -1
    else if s[0] == c then 0
    else
      var j := IndexOf(s[1..], c);
      assert s[1..] == s[..|s|][1..];
      if j == -1 then -1
      else
        assert s[..j + 1] == [s[0]] + s[1..][..j];
        j + 1
  }

  /** The position of the last `c` in `s`, or -1: `string.LastIndexOf`. */
  function LastIndexOf(s: string, c: char): (i: int)
    ensures -1 <= i < |s|
    ensures i == -1 <==> c !in s
    ensures i >= 0 ==> s[i] == c && c !in s[i + 1..]
  {
    if s == [] then -1
    else if s[|s| - 1] == c then |s| - 1
    else
      var j := LastIndexOf(s[..|s| - 1], c);
      assert s == s[..|s| - 1] + [s[|s| - 1]];
      if j >= 0 then assert s[j + 1..] == s[..|s| - 1][j + 1..] + [s[|s| - 1]]; j else j
  }

  /**
   * `[EmailAddress]`: the only check it makes is that there is exactly one
   * `@`, and it is neither the first nor the last character.
   */
  predicate IsEmailAddress(e: string) {
    var at := IndexOf(e, '@');
    at > 0 && at != |e| - 1 && at == LastIndexOf(e, '@')
  }

  /** `[EmailAddress]` on an optional field: an absent value passes. */
  predicate EmailAddress(s: Option<string>) {
    s.None? || IsEmailAddress(s.value)
  }

  /** An address is accepted exactly when one `@` stands strictly inside it and no other `@` occurs. */
  lemma EmailAddressHasOneInnerAt(e: string)
    ensures IsEmailAddress(e) <==> exists i | 0 < i < |e| - 1 :: e[i] == '@' && '@' !in e[..i] && '@' !in e[i + 1..]
  {
    var first, last := IndexOf(e, '@'), LastIndexOf(e, '@');
    if exists i | 0 < i < |e| - 1 :: e[i] == '@' && '@' !in e[..i] && '@' !in e[i + 1..] {
      var i :| 0 < i < |e| - 1 && e[i] == '@' && '@' !in e[..i] && '@' !in e[i + 1..];
      assert forall j | 0 <= j < i :: e[..i][j] == e[j];
      assert forall j | i < j < |e| :: e[i + 1..][j - i - 1] == e[j];
    }
    if IsEmailAddress(e) {
      assert 0 < first < |e| - 1 && e[first] == '@' && '@' !in e[..first] && '@' !in e[first + 1..];
    }
  }

  /** `UsuarioCreateDto`: a handle of 3 to 60 code units, an e-mail address of at most 160, a password of 8 to 128. */
  predicate ValidCreate(d: UsuarioCreateDto) {
    && Required(d.usuario) && StringLength(d.usuario, 3, 60)
    && Required(d.email) && EmailAddress(d.email) && StringLength(d.email, 0, 160)
    && Required(d.senha) && StringLength(d.senha, 8, 128)
  }

  /** `UsuarioUpdateDto`: the same bounds on the fields that are present; the row version must be present. */
  predicate ValidUpdate(d: UsuarioUpdateDto) {
    && StringLength(d.usuario, 3, 60)
    && EmailAddress(d.email) && StringLength(d.email, 0, 160)
    && d.rowVersion.Some?
  }

  predicate ValidPasswordChange(d: PasswordChangeDto) {
    Required(d.senhaAtual) && Required(d.novaSenha) && Required(d.confirmacaoSenha)
  }

  predicate ValidLogin(r: LoginRequest) {
    Required(r.usuario) && Required(r.senha)
  }

  /** `SignupRequest`: a handle of at least 2 code units, an e-mail address, a password of at least 8. */
  predicate ValidSignup(r: SignupRequest) {
    && Required(r.usuario) && MinLength(r.usuario, 2)
    && Required(r.email) && EmailAddress(r.email)
    && Required(r.senha) && MinLength(r.senha, 8)
  }

  /**
   * A valid create request carries all three fields, within the bounds of
   * the entity's columns, in UTF-16 code units. An address needs a
   * character on each side of its `@`, so it has at least 3.
   */
  lemma ValidCreateBounds(d: UsuarioCreateDto)
    requires ValidCreate(d)
    ensures d.usuario.Some? && 3 <= Utf16Length(d.usuario.value) <= 60
    ensures d.email.Some? && 3 <= Utf16Length(d.email.value) <= 160
    ensures d.senha.Some? && 8 <= Utf16Length(d.senha.value) <= 128
  {
    Utf16LengthBounds(d.email.value);
  }

  /** Every valid create request would also pass the sign-up rules. */
  lemma CreateRequestPassesSignup(d: UsuarioCreateDto)
    requires ValidCreate(d)
    ensures ValidSignup(SignupRequest(d.usuario, d.email, d.senha))
  {
  }

  /** The sign-up rules are strictly looser: a 2-character handle passes them and not the create rules. */
  /** The facts about the literals the comparison below is built from. */
  lemma ShortHandleLiterals()
    ensures !AllWhiteSpace("ab") && Utf16Length("ab") == 2
    ensures !AllWhiteSpace("12345678") && 8 <= Utf16Length("12345678") <= 128
  {
    assert "ab"[0] == 'a' && "12345678"[0] == '1';
    Utf16LengthOfBmp("ab");
    Utf16LengthBounds("12345678");
  }

  /** `a@b` is a present, well-formed address. */
  lemma ShortAddressLiteral()
    ensures !AllWhiteSpace("a@b") && IsEmailAddress("a@b")
  {
    assert "a@b"[0] == 'a';
    assert IndexOf("a@b", '@') == 1 by { assert "a@b"[1..][0] == '@'; }
    assert LastIndexOf("a@b", '@') == 1 by { assert "a@b"[..2][1] == '@'; }
  }

  lemma SignupLooserThanCreate()
    ensures ValidSignup(SignupRequest(Some("ab"), Some("a@b"), Some("12345678")))
    ensures !ValidCreate(UsuarioCreateDto(Some("ab"), Some("a@b"), Some("12345678")))
  {
    ShortHandleLiterals();
    ShortAddressLiteral();
  }
}
