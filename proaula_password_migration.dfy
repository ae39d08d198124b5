/**
 * PasswordMigrationRunner: at start-up, every stored user whose password is neither
 * blank nor already in the bcrypt modular-crypt shape gets that password replaced by
 * the encoder's hash of it, in place.
 */
module ProaulaPasswordMigration {

  import opened Wrappers
  import opened JavaText
  import opened ProaulaUsuario

  /** A regular-expression element that consumes exactly one character. */
  datatype CharClass = Literal(ch: char) | OneOf(options: set<char>) | AnyButLineTerminator

  predicate ClassMatches(k: CharClass, c: char) {
    if k.Literal? then c == k.ch
    else if k.OneOf? then c in k.options
    else !IsLineTerminator(c)
  }

  /** BCRYPT_PATTERN, `^\$2[aby]\$.{56}$`: two literals, a class, a literal, then 56
      times `.`; the anchors leave nothing of the input unmatched. */
  const BcryptPattern: seq<CharClass> :=
    [Literal('$'), Literal('2'), OneOf({'a', 'b', 'y'}), Literal('$')]
    + Repeat(AnyButLineTerminator, 56)

  /** `k{n}`: the element `k` n times over. */
  function Repeat(k: CharClass, n: nat): (r: seq<CharClass>)
    ensures |r| == n && forall i :: 0 <= i < n ==> r[i] == k
  {
    if n == 0 then [] else [k] + Repeat(k, n - 1)
  }

  /** Matcher.matches() for a pattern of single-character elements: the whole input is
      consumed, one character per element. */
  predicate FullMatch(p: seq<CharClass>, s: string)
    decreases |p|
  {
    if p == [] then s == []
    else s != [] && ClassMatches(p[0], s[0]) && FullMatch(p[1..], s[1..])
  }

  /** The strings the pattern accepts, described directly: 60 characters, "$2", one
      of 'a', 'b', 'y', "$", and then 56 characters none of which ends a line. */
  predicate IsBcryptShaped(s: string) {
    |s| == 60 && s[0] == '$' && s[1] == '2' && s[2] in {'a', 'b', 'y'} && s[3] == '$'
    && forall i :: 4 <= i < 60 ==> !IsLineTerminator(s[i])
  }

  /** A whole-string match of fixed-width elements is a position-by-position match. */
  lemma {:induction false} FullMatchIsPointwise(p: seq<CharClass>, s: string)
    ensures FullMatch(p, s) <==> |p| == |s| && forall i :: 0 <= i < |p| ==> ClassMatches(p[i], s[i])
    decreases |p|
  {
    if p != [] && s != [] {
      FullMatchIsPointwise(p[1..], s[1..]);
      if |p| == |s| && forall i :: 0 <= i < |p| ==> ClassMatches(p[i], s[i]) {
        assert forall i :: 0 <= i < |p| - 1 ==> p[1..][i] == p[i + 1] && s[1..][i] == s[i + 1];
      }
      if FullMatch(p, s) {
        forall i | 0 <= i < |p| ensures ClassMatches(p[i], s[i]) {
          if i > 0 {
            assert p[1..][i - 1] == p[i] && s[1..][i - 1] == s[i];
          }
        }
      }
    }
  }

  /** BCRYPT_PATTERN accepts exactly the bcrypt-shaped strings. */
  lemma BcryptPatternAcceptsExactlyShaped(s: string)
    ensures FullMatch(BcryptPattern, s) <==> IsBcryptShaped(s)
  {
    FullMatchIsPointwise(BcryptPattern, s);
    if IsBcryptShaped(s) {
      forall i | 0 <= i < 60 ensures ClassMatches(BcryptPattern[i], s[i]) {
        if i >= 4 {
          assert BcryptPattern[i] == AnyButLineTerminator;
        }
      }
    }
    if FullMatch(BcryptPattern, s) {
      forall i | 4 <= i < 60 ensures !IsLineTerminator(s[i]) {
        assert ClassMatches(BcryptPattern[i], s[i]);
      }
    }
  }

  /** needsEncoding: null and blank passwords are left alone; any other password needs
      encoding exactly when it is not bcrypt-shaped. */
  function NeedsEncoding(password: Option<string>): (r: bool)
    ensures password.None? ==> !r
    ensures password.Some? && IsBlank(password.value) ==> !r
    ensures password.Some? && !IsBlank(password.value) ==> (r <==> !IsBcryptShaped(password.value))
  {
    if password.None? || IsBlank(password.value) then false
    else
      BcryptPatternAcceptsExactlyShaped(password.value);
      !FullMatch(BcryptPattern, password.value)
  }

  /** The password the record at position `k` of the scan holds after the pass.
      `encode(k, raw)` is the encoder's answer to its call for that record; the index
      stands for the fresh random salt of that call. */
  function Migrated(password: Option<string>, k: nat, encode: (nat, string) -> string): Option<string> {
    if NeedsEncoding(password) then Some(encode(k, password.value)) else password
  }

  /** An encoder whose every output is in bcrypt form. */
  ghost predicate ProducesBcrypt(encode: (nat, string) -> string) {
    forall k, raw :: IsBcryptShaped(encode(k, raw))
  }

  /** A migrated password never needs encoding again, so a second pass with any
      encoder leaves it as it is: the migration is idempotent. */
  lemma MigrationIsIdempotent(password: Option<string>, k: nat, encode: (nat, string) -> string,
                              k': nat, encode': (nat, string) -> string)
    requires ProducesBcrypt(encode)
    ensures !NeedsEncoding(Migrated(password, k, encode))
    ensures Migrated(Migrated(password, k, encode), k', encode') == Migrated(password, k, encode)
  {
    if NeedsEncoding(password) {
      var h := encode(k, password.value);
      assert IsBcryptShaped(h);
      assert !IsWhitespace(h[0]);
    }
  }

  /** run(): one pass over findAll() in its order, overwriting each flagged password
      with its hash.  The entities are distinct objects (one managed instance per row). */
  method Run(users: array<Usuario>, encode: (nat, string) -> string)
    requires forall i, j :: 0 <= i < j < users.Length ==> users[i] != users[j]
    modifies (set i | 0 <= i < users.Length :: users[i])`password
    ensures users[..] == old(users[..])
    ensures forall i :: 0 <= i < users.Length ==>
      users[i].password == Migrated(old(users[i].password), i, encode)
    ensures forall i :: 0 <= i < users.Length ==>
      users[i].id == old(users[i].id) && users[i].email == old(users[i].email)
    ensures ProducesBcrypt(encode) ==> forall i :: 0 <= i < users.Length ==> !NeedsEncoding(users[i].password)
  {
    var i := 0;
    while i < users.Length
      invariant 0 <= i <= users.Length
      invariant forall j :: 0 <= j < i ==> users[j].password == Migrated(old(users[j].password), j, encode)
      invariant forall j :: i <= j < users.Length ==> users[j].password == old(users[j].password)
    {
      var usuario := users[i];
      if NeedsEncoding(usuario.password) {
        var rawPassword := usuario.password.value;
        usuario.password := Some(encode(i, rawPassword));
      }
      i := i + 1;
    }
    if ProducesBcrypt(encode) {
      forall j | 0 <= j < users.Length ensures !NeedsEncoding(users[j].password) {
        MigrationIsIdempotent(old(users[j].password), j, encode, j, encode);
      }
    }
  }
}
