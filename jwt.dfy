/** A stand-in for `jwt.sign(claims, SECRET_KEY)` and `jwt.verify(token,
    SECRET_KEY)`. The token is text without spaces made of four fields
    separated by '.': the id in decimal, the role, the escaped username and
    a keyed checksum of the first three. Verification parses the fields and
    accepts the token only if signing the parsed claims gives back the very
    same text, so a token verifies exactly when it is the signature of its
    claims under the key. The checksum is not a cryptographic MAC: the
    model states the functional behaviour (round trip, claims recovered
    verbatim), not unforgeability. */
module Jwt {
  import opened Auth
  import opened Strings

  function RoleText(r: Role): (s: string)
    ensures '.' !in s && ' ' !in s
  {
    match r
    case Admin => "admin"
    case User => "user"
  }

  function ParseRole(s: string): Role {
    if s == "admin" then Admin else User
  }

  /** A polynomial checksum of `s`, reduced modulo a prime. */
  function Checksum(s: string): nat
    decreases |s|
  {
    if s == [] then 0 else (Checksum(s[..|s| - 1]) * 31 + s[|s| - 1] as int) % 1000000007
  }

  function ClaimFields(c: Principal): (f: seq<string>)
    ensures |f| == 3
    ensures forall i :: 0 <= i < 3 ==> '.' !in f[i] && ' ' !in f[i]
  {
    DigitsAvoid(c.id, '.');
    DigitsAvoid(c.id, ' ');
    [Digits(c.id), RoleText(c.role), Escape(c.username)]
  }

  function Mac(key: string, payload: string): (m: string)
    ensures '.' !in m && ' ' !in m
  {
    DigitsAvoid(Checksum(key + payload), '.');
    DigitsAvoid(Checksum(key + payload), ' ');
    Digits(Checksum(key + payload))
  }

  function TokenFields(c: Principal, key: string): (f: seq<string>)
    ensures |f| == 4
    ensures forall i :: 0 <= i < 4 ==> '.' !in f[i] && ' ' !in f[i]
  {
    ClaimFields(c) + [Mac(key, Join(ClaimFields(c), '.'))]
  }

  /** `jwt.sign(c, key)`: the token is never empty and holds no space, so it
      survives the `Bearer <token>` header. */
  function Sign(c: Principal, key: string): (t: string)
    ensures t != [] && ' ' !in t
  {
    var f := TokenFields(c, key);
    JoinAvoids(f, '.', ' ');
    assert |f[0]| >= 1;
    Join(f, '.')
  }

  /** `jwt.verify(t, key)`: the claims when the token checks out, otherwise None. */
  function Decode(t: string, key: string): (r: Option<Principal>)
    ensures r.Some? ==> Sign(r.value, key) == t
  {
    var f := Split(t, '.');
    if |f| != 4 then None
    else
      var c := Principal(ParseNat(f[0]), Unescape(f[2]), ParseRole(f[1]));
      if Sign(c, key) == t then Some(c) else None
  }

  /** Verifying an issued token gives back exactly the signed claims. */
  lemma {:induction false} TokenRoundTrip(c: Principal, key: string)
    ensures Decode(Sign(c, key), key) == Some(c)
  {
    var f := TokenFields(c, key);
    SplitJoin(f, '.');
    assert Split(Sign(c, key), '.') == f;
    DigitsRoundTrip(c.id);
    EscapeRoundTrip(c.username);
    assert ParseRole(RoleText(c.role)) == c.role;
    assert Principal(ParseNat(f[0]), Unescape(f[2]), ParseRole(f[1])) == c;
  }
}
