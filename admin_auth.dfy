/**
 * lib/admin-auth.ts: the admin allow-list, the credential check, and the signed session token
 * `<email>:<signature>`.
 *
 * The environment values are parameters (`None` when the variable is unset), and so are the
 * defaults the deployment falls back to. HMAC-SHA256 rendered as hex is an uninterpreted
 * function `hmac(secret, message)`.
 */
module AdminAuth {
  import opened Prelude
  import opened Strings

  /** The settings fixed when the module loads. */
  datatype Config = Config(allowedEmails: seq<string>, password: string, secret: string)

  /** `e.trim().toLowerCase()`. */
  function Normalise(e: string): string {
    Lower(Trim(e))
  }

  /** `Normalise` applied to every entry. */
  function NormaliseEach(ws: seq<string>): (r: seq<string>)
    ensures |r| == |ws|
  {
    seq(|ws|, i requires 0 <= i < |ws| => Normalise(ws[i]))
  }

  /** `raw.split(",").map((e) => e.trim().toLowerCase()).filter(Boolean)`. */
  function AllowedEmails(raw: string): seq<string> {
    NonEmptyOnly(NormaliseEach(Split(raw, ',')))
  }

  /** The settings from the environment: the allow-list from `emails` (else `defaultEmails`),
      the password (else `defaultPassword`), and the session secret (else the password). */
  function LoadConfig(emails: Option<string>, password: Option<string>, secret: Option<string>,
                      defaultEmails: string, defaultPassword: string): Config
  {
    var pw := password.GetOr(defaultPassword);
    Config(AllowedEmails(emails.GetOr(defaultEmails)), pw, secret.GetOr(pw))
  }

  /** An unset session secret falls back to the admin password, so the password signs sessions. */
  lemma SecretFallback(emails: Option<string>, password: Option<string>, secret: Option<string>,
                       defaultEmails: string, defaultPassword: string)
    ensures var c := LoadConfig(emails, password, secret, defaultEmails, defaultPassword);
      && c.allowedEmails == AllowedEmails(emails.GetOr(defaultEmails))
      && (secret.None? ==> c.secret == c.password)
      && (secret.Some? ==> c.secret == secret.value)
      && (password.Some? ==> c.password == password.value)
  {
  }

  lemma NormalisedShape(w: string)
    ensures var e := Normalise(w);
      && Trimmed(e) && Lower(e) == e
      && (e == [] <==> Blank(w))
  {
    var t := Trim(w);
    LowerKeepsShape(t);
  }

  /** Every allow-list entry is non-empty, trimmed and lower-case. */
  lemma AllowedEmailsShape(raw: string)
    ensures forall e :: e in AllowedEmails(raw) ==> e != [] && Trimmed(e) && Lower(e) == e
  {
    var ws := Split(raw, ',');
    var ns := NormaliseEach(ws);
    forall e | e in AllowedEmails(raw) ensures e != [] && Trimmed(e) && Lower(e) == e {
      var i :| 0 <= i < |ns| && ns[i] == e;
      NormalisedShape(ws[i]);
    }
  }

  /** Every allow-list entry comes from a non-blank comma-separated piece of `raw`. */
  lemma AllowedEmailSource(raw: string, e: string)
    requires e in AllowedEmails(raw)
    ensures exists piece :: piece in Split(raw, ',') && !Blank(piece) && e == Normalise(piece)
  {
    var ws := Split(raw, ',');
    var ns := NormaliseEach(ws);
    assert e in ns;
    var i :| 0 <= i < |ns| && ns[i] == e;
    NormalisedShape(ws[i]);
    assert ws[i] in ws;
  }

  /** Every non-blank comma-separated piece of `raw`, trimmed and lower-cased, is on the list. */
  lemma AllowedEmailOfPiece(raw: string, piece: string)
    requires piece in Split(raw, ',') && !Blank(piece)
    ensures Normalise(piece) in AllowedEmails(raw)
  {
    var ws := Split(raw, ',');
    var ns := NormaliseEach(ws);
    var i :| 0 <= i < |ws| && ws[i] == piece;
    NormalisedShape(piece);
    assert ns[i] == Normalise(piece);
    assert Normalise(piece) in ns;
  }

  /** The allow-list holds exactly the trimmed, lower-cased comma-separated pieces that are not
      blank. */
  lemma AllowedEmailsMeaning(raw: string, e: string)
    ensures e in AllowedEmails(raw) <==>
      exists piece :: piece in Split(raw, ',') && !Blank(piece) && e == Normalise(piece)
  {
    if e in AllowedEmails(raw) {
      AllowedEmailSource(raw, e);
    }
    if exists piece :: piece in Split(raw, ',') && !Blank(piece) && e == Normalise(piece) {
      var piece :| piece in Split(raw, ',') && !Blank(piece) && e == Normalise(piece);
      AllowedEmailOfPiece(raw, piece);
    }
  }

  /** `validateCredentials`. */
  predicate ValidateCredentials(c: Config, email: string, password: string) {
    Lower(email) in c.allowedEmails && password == c.password
  }

  /** The email is compared without regard to case, the password exactly; for an allow-list read
      from `raw`, an email is accepted when it equals a non-blank piece of `raw` up to case and
      the surrounding whitespace of the piece. */
  lemma ValidateCredentialsMeaning(raw: string, c: Config, email: string, password: string)
    requires c.allowedEmails == AllowedEmails(raw)
    ensures ValidateCredentials(c, email, password) <==>
      password == c.password
      && exists piece :: piece in Split(raw, ',') && !Blank(piece) && EqualsIgnoreCase(email, Trim(piece))
  {
    AllowedEmailsMeaning(raw, Lower(email));
    var ws := Split(raw, ',');
    forall piece | piece in ws && !Blank(piece)
      ensures EqualsIgnoreCase(email, Trim(piece)) <==> Lower(email) == Normalise(piece)
    {
    }
  }

  /** Case never changes the verdict on the email. */
  lemma ValidateIgnoresCase(c: Config, email1: string, email2: string, password: string)
    requires EqualsIgnoreCase(email1, email2)
    ensures ValidateCredentials(c, email1, password) == ValidateCredentials(c, email2, password)
  {
  }

  // ----- session tokens ----------------------------------------------------------------

  /** `signToken`: the email, a colon, and the HMAC of the email under the session secret. */
  function SignToken(hmac: (string, string) -> string, c: Config, email: string): string {
    email + ":" + hmac(c.secret, email)
  }

  /** The second colon-separated part, or empty when the token has no colon. */
  function SecondPart(parts: seq<string>): string {
    if |parts| > 1 then parts[1] else ""
  }

  /** `verifyToken`: the email when both parts are present, the signature matches and the email
      is on the allow-list up to case. */
  function VerifyToken(hmac: (string, string) -> string, c: Config, token: string): Option<string> {
    var parts := Split(token, ':');
    var email := parts[0];
    var signature := SecondPart(parts);
    if email == [] || signature == [] then None
    else if hmac(c.secret, email) != signature then None
    else if Lower(email) !in c.allowedEmails then None
    else Some(email)
  }

  /** A signature the model can embed in a token: non-empty and colon-free, as hex is. */
  predicate UsableSignature(sig: string) {
    sig != [] && ':' !in sig
  }

  /** The shape of every token `verifyToken` accepts for `email`: the signed token, optionally
      followed by a colon and anything at all. */
  predicate SignedPrefix(hmac: (string, string) -> string, c: Config, email: string, token: string) {
    var signed := SignToken(hmac, c, email);
    StartsWith(token, signed) && (|token| == |signed| || token[|signed|] == ':')
  }

  lemma SplitSigned(email: string, sig: string, tail: string, token: string)
    requires ':' !in email && ':' !in sig
    requires token == email + ":" + sig + tail
    requires tail == [] || tail[0] == ':'
    ensures Split(token, ':')[0] == email && SecondPart(Split(token, ':')) == sig
  {
    var after := sig + tail;
    ConcatAssoc(email + ":", sig, tail);
    SplitWord(email, after, ':');
    if tail == [] {
      assert after == sig;
      SplitWord(sig, "", ':');
    } else {
      assert tail == [':'] + tail[1..];
      ConcatAssoc(sig, [':'], tail[1..]);
      SplitWord(sig, tail[1..], ':');
    }
  }

  lemma SliceAround(s: string, k: nat)
    requires k < |s|
    ensures s == s[..k] + [s[k]] + s[k + 1..]
  {
  }

  lemma SliceAfter(s: string, k: nat, m: nat)
    requires k + m <= |s|
    ensures s[k..][m..] == s[k + m..]
  {
  }

  lemma SplitOfToken(token: string)
    requires Split(token, ':')[0] != [] && SecondPart(Split(token, ':')) != []
    ensures |Split(token, ':')[0]| + 1 + |SecondPart(Split(token, ':'))| <= |token|
    ensures var email := Split(token, ':')[0];
      var sig := SecondPart(Split(token, ':'));
      var tail := token[|email| + 1 + |sig|..];
      && ':' !in email && ':' !in sig
      && token == email + ":" + sig + tail
      && (tail == [] || tail[0] == ':')
  {
    var email := Split(token, ':')[0];
    assert |Split(token, ':')| > 1;
    assert |email| < |token| by {
      if |email| == |token| {
        SplitWord(token, "", ':');
      }
    }
    var after := token[|email| + 1..];
    SliceAround(token, |email|);
    SplitWord(email, after, ':');
    var sig := Split(after, ':')[0];
    var tail := after[|sig|..];
    assert after == sig + tail;
    ConcatAssoc(email + ":", sig, tail);
    SliceAfter(token, |email| + 1, |sig|);
  }

  /** `verifyToken` accepts exactly the tokens that begin with a correctly signed, non-empty,
      colon-free email on the allow-list (up to case), whose signature is non-empty and
      colon-free, and that end there or continue with a colon; the answer is that email. */
  lemma VerifyTokenMeaning(hmac: (string, string) -> string, c: Config, token: string, email: string)
    ensures VerifyToken(hmac, c, token) == Some(email) <==>
      && email != [] && ':' !in email
      && UsableSignature(hmac(c.secret, email))
      && Lower(email) in c.allowedEmails
      && SignedPrefix(hmac, c, email, token)
  {
    var sig := hmac(c.secret, email);
    if VerifyToken(hmac, c, token) == Some(email) {
      SplitOfToken(token);
    }
    if email != [] && ':' !in email && UsableSignature(sig) && Lower(email) in c.allowedEmails
      && SignedPrefix(hmac, c, email, token)
    {
      var signed := SignToken(hmac, c, email);
      var tail := token[|signed|..];
      assert token == email + ":" + sig + tail;
      SplitSigned(email, sig, tail, token);
    }
  }

  /** `verifyToken(signToken(e)) == e` for a non-empty colon-free email on the allow-list, when
      the signature is non-empty and colon-free. */
  lemma SignVerifyRoundTrip(hmac: (string, string) -> string, c: Config, email: string)
    requires email != [] && ':' !in email && Lower(email) in c.allowedEmails
    requires UsableSignature(hmac(c.secret, email))
    ensures VerifyToken(hmac, c, SignToken(hmac, c, email)) == Some(email)
  {
    SplitSigned(email, hmac(c.secret, email), "", SignToken(hmac, c, email));
  }

  /** Whatever follows a second colon is ignored. */
  lemma VerifyIgnoresExtraParts(hmac: (string, string) -> string, c: Config, email: string, extra: string)
    requires email != [] && ':' !in email && Lower(email) in c.allowedEmails
    requires UsableSignature(hmac(c.secret, email))
    ensures VerifyToken(hmac, c, SignToken(hmac, c, email) + ":" + extra) == Some(email)
  {
    var sig := hmac(c.secret, email);
    var tail := ":" + extra;
    var token := SignToken(hmac, c, email) + ":" + extra;
    ConcatAssoc(SignToken(hmac, c, email), ":", extra);
    SplitSigned(email, sig, tail, token);
  }

  /** Credentials that pass `validateCredentials` yield a session the token check accepts. */
  lemma ValidatedSessionVerifies(hmac: (string, string) -> string, raw: string, c: Config,
                                 email: string, password: string)
    requires c.allowedEmails == AllowedEmails(raw)
    requires ValidateCredentials(c, email, password) && ':' !in email
    requires UsableSignature(hmac(c.secret, email))
    ensures VerifyToken(hmac, c, SignToken(hmac, c, email)) == Some(email)
  {
    AllowedEmailsShape(raw);
    LowerKeepsShape(email);
    SignVerifyRoundTrip(hmac, c, email);
  }

  /** The refusals: any result is an allowed email; a token without a colon, with an empty
      email part or an empty signature, with a wrong signature, or for an email off the list
      gives nothing. */
  lemma VerifyTokenRefusals(hmac: (string, string) -> string, c: Config, token: string)
    ensures var parts := Split(token, ':');
      var r := VerifyToken(hmac, c, token);
      && (r.Some? ==> Lower(r.value) in c.allowedEmails && r.value == parts[0])
      && (':' !in token ==> r.None?)
      && (parts[0] == [] || SecondPart(parts) == [] ==> r.None?)
      && (hmac(c.secret, parts[0]) != SecondPart(parts) ==> r.None?)
      && (Lower(parts[0]) !in c.allowedEmails ==> r.None?)
  {
    if ':' !in token {
      SplitWord(token, "", ':');
    }
  }
}
