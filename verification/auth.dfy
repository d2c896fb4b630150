/** The two middlewares of `server/src/routes.ts`: `requireAuth`, which lets a request through either
    on the shared admin password or on a Google ID token carrying an email (admin when that email is
    on the allow-list), and `requireAdmin`, which lets only admins through. Google's token check is
    the oracle `verify`, called with the token and the audience. */
module Auth {
  import opened Common
  import Strings

  /** The environment the server reads; `None` is an unset variable. */
  datatype Config = Config(
    clientId: Option<string>,      // GOOGLE_CLIENT_ID
    adminEmails: Option<string>,   // ALLOWED_ADMIN_EMAILS, comma separated
    adminPassword: Option<string>) // ADMIN_PASSWORD

  /** What verifying a token yields: it throws, or it yields a payload (an absent payload is
      `Verified(None)`, since both are rejected alike). */
  datatype Verdict = Invalid | Verified(email: Option<string>)

  /** The middleware's decision: a JSON error reply, or a request let through with its role and,
      on the token path, the payload's email. */
  datatype Outcome = Denied(status: int, error: string) | Identity(isAdmin: bool, email: Option<string>)

  const MissingToken := "Unauthorized: Missing Token"
  const InvalidToken := "Unauthorized: Invalid Token"
  const AdminsOnly := "Forbidden: Admins Only"
  const Bearer := "Bearer "

  /** The audience tokens are checked against: the client id, or "" when unset. */
  function Audience(cfg: Config): string {
    cfg.clientId.GetOr("")
  }

  /** The admin allow-list: the variable (or "") split at commas, each piece trimmed. */
  function AllowList(cfg: Config): (list: seq<string>)
    ensures |list| == |Strings.Split(cfg.adminEmails.GetOr(""), ',')|
    ensures forall i :: 0 <= i < |list| ==> list[i] == Strings.Trim(Strings.Split(cfg.adminEmails.GetOr(""), ',')[i])
  {
    var parts := Strings.Split(cfg.adminEmails.GetOr(""), ',');
    seq(|parts|, i requires 0 <= i < |parts| => Strings.Trim(parts[i]))
  }

  /** The header is exactly the configured admin password (which must be non-empty). */
  predicate Bypass(cfg: Config, header: Option<string>) {
    TruthyText(cfg.adminPassword) && header == Some(cfg.adminPassword.value)
  }

  predicate HasBearerPrefix(h: string) {
    |h| >= |Bearer| && h[..|Bearer|] == Bearer
  }

  /** `header.split(' ')[1]`: the text between the first and the second space. */
  function BearerToken(header: string): (token: string)
    requires HasBearerPrefix(header)
    ensures ' ' !in token
  {
    assert header[6] == ' ';
    assert ' ' in multiset(header);
    Strings.Split(header, ' ')[1]
  }

  /** `requireAuth`. */
  function Authenticate(cfg: Config, header: Option<string>, verify: (string, string) -> Verdict): (r: Outcome)
    ensures Bypass(cfg, header) ==> r == Identity(true, None)
    ensures !Bypass(cfg, header) && (header.None? || !HasBearerPrefix(header.value)) ==>
              r == Denied(401, MissingToken)
    ensures !Bypass(cfg, header) && header.Some? && HasBearerPrefix(header.value) ==>
              var v := verify(BearerToken(header.value), Audience(cfg));
              && (r.Denied? <==> !(v.Verified? && TruthyText(v.email)))
              && (r.Denied? ==> r == Denied(401, InvalidToken))
              && (r.Identity? ==> r.email == v.email && (r.isAdmin <==> v.email.value in AllowList(cfg)))
  {
    if Bypass(cfg, header) then Identity(true, None)
    else if header.None? || !HasBearerPrefix(header.value) then Denied(401, MissingToken)
    else
      match verify(BearerToken(header.value), Audience(cfg))
      case Invalid => Denied(401, InvalidToken)
      case Verified(email) =>
        if !TruthyText(email) then Denied(401, InvalidToken)
        else Identity(email.value in AllowList(cfg), email)
  }

  /** `requireAdmin`: a non-admin identity is turned away with 403; anything else passes unchanged. */
  function RequireAdmin(o: Outcome): (r: Outcome)
    ensures r.Identity? ==> r == o && r.isAdmin
    ensures o.Identity? && !o.isAdmin ==> r == Denied(403, AdminsOnly)
    ensures o.Denied? ==> r == o
  {
    if o.Identity? && !o.isAdmin then Denied(403, AdminsOnly) else o
  }

  /** A space-free token after "Bearer " is passed on verbatim. */
  lemma BearerTokenRoundTrip(t: string)
    requires ' ' !in t
    ensures HasBearerPrefix(Bearer + t) && BearerToken(Bearer + t) == t
  {
    assert (Bearer + t)[..|Bearer|] == Bearer;
    assert Bearer + t == "Bearer" + [' '] + t;
    Strings.SplitAtFirst("Bearer", t, ' ');
    Strings.SplitNoSeparator(t, ' ');
  }

  /** Only the text up to the next space is passed on: anything after it is dropped. */
  lemma BearerTokenStopsAtSpace(t: string, rest: string)
    requires ' ' !in t
    ensures HasBearerPrefix(Bearer + t + " " + rest) && BearerToken(Bearer + t + " " + rest) == t
  {
    var h := Bearer + t + " " + rest;
    assert h[..|Bearer|] == Bearer;
    assert h == "Bearer" + [' '] + (t + [' '] + rest);
    Strings.SplitAtFirst("Bearer", t + [' '] + rest, ' ');
    Strings.SplitAtFirst(t, rest, ' ');
  }

  /** With no allow-list configured nobody on the token path is an admin (the list is [""], and an
      accepted email is never ""). */
  lemma NoAllowListNoAdmin(cfg: Config, header: Option<string>, verify: (string, string) -> Verdict)
    requires cfg.adminEmails.None?
    requires !Bypass(cfg, header)
    ensures !Authenticate(cfg, header, verify).Identity? || !Authenticate(cfg, header, verify).isAdmin
  {
    Strings.SplitNoSeparator("", ',');
    assert AllowList(cfg) == [""];
  }

  /** An allow-list written as comma-joined, comma-free entries is read back as those entries trimmed,
      so surrounding spaces in the variable do not matter. */
  lemma {:induction false} AllowListOfJoin(cfg: Config, entries: seq<string>)
    requires |entries| >= 1 && forall i :: 0 <= i < |entries| ==> ',' !in entries[i]
    requires cfg.adminEmails == Some(Strings.Join(entries, ','))
    ensures |AllowList(cfg)| == |entries|
    ensures forall i :: 0 <= i < |entries| ==> AllowList(cfg)[i] == Strings.Trim(entries[i])
  {
    Strings.SplitJoin(entries, ',');
  }

  /** The admin routes' gate as a whole: a request passes it exactly when it carries the admin
      password, or a verified token whose email is on the allow-list. */
  lemma AdminGate(cfg: Config, header: Option<string>, verify: (string, string) -> Verdict)
    ensures RequireAdmin(Authenticate(cfg, header, verify)).Identity? <==>
              || Bypass(cfg, header)
              || (&& header.Some? && HasBearerPrefix(header.value)
                  && var v := verify(BearerToken(header.value), Audience(cfg));
                     v.Verified? && TruthyText(v.email) && v.email.value in AllowList(cfg))
  {
  }
}
