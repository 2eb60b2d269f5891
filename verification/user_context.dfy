/**
 * The user context: the reducer holding the signed-in user, the request
 * interceptor that attaches stored tokens, the sign-up flags the server's
 * replies drive, and the browser-storage keys written at login and removed
 * at logout. Storage is a map, server replies are inputs, and every clock
 * reading is an integer number of milliseconds passed in by the caller.
 */
module UserContext {
  import opened Wrappers
  import opened Http

  /** `localStorage`: string keys to string values. */
  type Storage = map<string, string>

  /** `if (localStorage.getItem(key))`: the key is stored with a non-empty value. */
  predicate StoredTruthy(store: Storage, key: string) {
    key in store && store[key] != ""
  }

  // ---------------------------------------------------------------------------
  // Reducer

  /** The user record dispatched at login; fields read from the reply may be missing. */
  datatype User = User(
    socialId: Option<string>, nickName: Option<string>, email: Option<string>,
    password: string, socialType: string)

  /** Reducer state: the user plus whatever other properties the state object carries. */
  datatype UserState = UserState(user: Option<User>, others: map<string, string>)

  const InitialState := UserState(None, map[])

  datatype Action = Action(kind: string, user: Option<User>)

  const SetUser := "SET_USER"
  const UnknownActionPrefix := "통제되지 않는 타입: "

  /**
   * `reducer`: `SET_USER` replaces the user and copies every other property;
   * any other action type throws an error naming it.
   */
  function Reducer(s: UserState, a: Action): (r: Result<UserState>)
    ensures r.Ok? <==> a.kind == SetUser
    ensures r.Ok? ==> r.value.user == a.user && r.value.others == s.others
    ensures r.Err? ==> |r.message| >= |UnknownActionPrefix| && r.message[|UnknownActionPrefix|..] == a.kind
  {
    if a.kind == SetUser then Ok(s.(user := a.user))
    else Err(UnknownActionPrefix + a.kind)
  }

  /** Of two `SET_USER` dispatches in a row only the last one is visible. */
  lemma ReducerLastWriteWins(s: UserState, u1: Option<User>, u2: Option<User>)
    ensures Reducer(s, Action(SetUser, u1)).Ok?
    ensures Reducer(Reducer(s, Action(SetUser, u1)).value, Action(SetUser, u2)) == Reducer(s, Action(SetUser, u2))
  {
  }

  // ---------------------------------------------------------------------------
  // Request interceptor

  const AccessHeader := "Authorization-Access"
  const RefreshHeader := "Authorization-Refresh"

  /**
   * The request interceptor: sets `Authorization-Access: Bearer <token>` when
   * an access token is stored, likewise the refresh header, and touches no
   * other header.
   */
  function Intercept(store: Storage, headers: map<string, string>): (h: map<string, string>)
    ensures AccessHeader in h <==> AccessHeader in headers || StoredTruthy(store, "accessToken")
    ensures StoredTruthy(store, "accessToken") ==> h[AccessHeader] == "Bearer " + store["accessToken"]
    ensures !StoredTruthy(store, "accessToken") && AccessHeader in headers ==> h[AccessHeader] == headers[AccessHeader]
    ensures RefreshHeader in h <==> RefreshHeader in headers || StoredTruthy(store, "refreshToken")
    ensures StoredTruthy(store, "refreshToken") ==> h[RefreshHeader] == "Bearer " + store["refreshToken"]
    ensures !StoredTruthy(store, "refreshToken") && RefreshHeader in headers ==> h[RefreshHeader] == headers[RefreshHeader]
    ensures forall k :: k != AccessHeader && k != RefreshHeader ==>
              (k in h <==> k in headers) && (k in h ==> h[k] == headers[k])
  {
    var withAccess := if StoredTruthy(store, "accessToken")
      then headers[AccessHeader := "Bearer " + store["accessToken"]] else headers;
    if StoredTruthy(store, "refreshToken")
      then withAccess[RefreshHeader := "Bearer " + store["refreshToken"]] else withAccess
  }

  /** Running the interceptor twice is the same as once. */
  lemma InterceptIdempotent(store: Storage, headers: map<string, string>)
    ensures Intercept(store, Intercept(store, headers)) == Intercept(store, headers)
  {
  }

  // ---------------------------------------------------------------------------
  // Sign-up and verification flags

  /** The provider's flag state: `takenTime`/`expireTime` are `null` until set. */
  datatype Flags = Flags(
    emailExists: bool, takenTime: Option<int>, expireTime: Option<int>,
    verified: bool, nameDuplicated: bool)

  const InitialFlags := Flags(true, None, None, false, true)

  const MillisPerMinute := 60000

  /** `Date.prototype.getMinutes` (the minute field, time zone offset taken as whole hours). */
  function MinuteOf(t: int): int {
    (t / MillisPerMinute) % 60
  }

  /** `d.setMinutes(m)` on the date at `t`: the minute field becomes `m`, overflow carrying into the hours. */
  function SetMinutes(t: int, m: int): int {
    t + (m - MinuteOf(t)) * MillisPerMinute
  }

  /**
   * `new Date(new Date().setMinutes(new Date().getMinutes() + 10))` where
   * the first `new Date()` reads `t2` and the second `t3`. Read within one
   * minute this is ten minutes after `t2`; when the minute turns between the
   * two reads it is eleven, and when the hour turns it is 49 minutes before.
   */
  function TenMinutesLater(t2: int, t3: int): (e: int)
    ensures MinuteOf(t2) == MinuteOf(t3) ==> e == t2 + 10 * MillisPerMinute
    ensures MinuteOf(t3) == MinuteOf(t2) + 1 ==> e == t2 + 11 * MillisPerMinute
    ensures MinuteOf(t2) == 59 && MinuteOf(t3) == 0 ==> e == t2 - 49 * MillisPerMinute
  {
    SetMinutes(t2, MinuteOf(t3) + 10)
  }

  /**
   * `requestEmailForSignUp`: a 204 reply means the address is free and a
   * code was sent, recorded at clock reading `now`; any other resolved reply
   * means the address is taken. A rejected request changes nothing.
   */
  function RequestEmailForSignUp(f: Flags, reply: Reply<()>, now: int): (r: Flags)
    ensures !Resolves(reply) ==> r == f
    ensures IsNoContent(reply) ==> !r.emailExists && r.takenTime == Some(now)
    ensures Resolves(reply) && !IsNoContent(reply) ==> r.emailExists && r.takenTime == f.takenTime
    ensures r.expireTime == f.expireTime && r.verified == f.verified && r.nameDuplicated == f.nameDuplicated
  {
    if !Resolves(reply) then f
    else if reply.status == 204 then f.(emailExists := false, takenTime := Some(now))
    else f.(emailExists := true)
  }

  /**
   * `requestEmailForReset`, the mirror image: a 204 reply means the address
   * exists and a code was sent; `takenTime` reads the clock at `t1` and
   * `expireTime` is computed from readings `t2` and `t3`. Any other resolved
   * reply means no such address.
   */
  function RequestEmailForReset(f: Flags, reply: Reply<()>, t1: int, t2: int, t3: int): (r: Flags)
    ensures !Resolves(reply) ==> r == f
    ensures IsNoContent(reply) ==> r.emailExists && r.takenTime == Some(t1) && r.expireTime == Some(TenMinutesLater(t2, t3))
    ensures Resolves(reply) && !IsNoContent(reply) ==>
              !r.emailExists && r.takenTime == f.takenTime && r.expireTime == f.expireTime
    ensures r.verified == f.verified && r.nameDuplicated == f.nameDuplicated
  {
    if !Resolves(reply) then f
    else if reply.status == 204 then
      f.(emailExists := true, takenTime := Some(t1), expireTime := Some(TenMinutesLater(t2, t3)))
    else f.(emailExists := false)
  }

  /** The two email requests read the same resolved reply in opposite ways. */
  lemma EmailFlowsAreMirrored(f: Flags, reply: Reply<()>, now: int, t1: int, t2: int, t3: int)
    requires Resolves(reply)
    ensures RequestEmailForSignUp(f, reply, now).emailExists == !RequestEmailForReset(f, reply, t1, t2, t3).emailExists
  {
  }

  /** `null` and dates in `expireTime - takenTime`: `null` converts to 0, a date to its milliseconds. */
  function AsMillis(t: Option<int>): int {
    t.GetOr(0)
  }

  /** The code lifetime, ten minutes. */
  const CodeLifetime := 10 * MillisPerMinute

  /**
   * The expiry gate as written: `(expireTime - takenTime) / 1000 / 60 > 10`,
   * comparing the two stored stamps and never the current time. The
   * divisions amount to comparing the stamps' difference with ten minutes.
   */
  predicate CodeExpired(f: Flags)
    ensures CodeExpired(f) <==> AsMillis(f.expireTime) - AsMillis(f.takenTime) > CodeLifetime
  {
    var d := (AsMillis(f.expireTime) - AsMillis(f.takenTime)) as real;
    assert d / 1000.0 / 60.0 == d / 60000.0;
    d / 1000.0 / 60.0 > 10.0
  }

  /** How `checkCodeVerification` ended: no code typed, code expired, or the request was made. */
  datatype VerifyStep = MissingCode | ExpiredCode | Requested

  datatype Verification = Verification(flags: Flags, step: VerifyStep)

  /**
   * `checkCodeVerification`: an empty code or an expired one stops before
   * any request; otherwise the request is made and only a 204 reply sets
   * `verified`. No other flag changes.
   */
  function CheckCodeVerification(f: Flags, inputNum: string, reply: Reply<()>): (r: Verification)
    ensures inputNum == "" ==> r == Verification(f, MissingCode)
    ensures r.step == Requested <==> inputNum != "" && !CodeExpired(f)
    ensures r.step != Requested ==> r.flags == f
    ensures r.flags.verified <==> f.verified || (r.step == Requested && IsNoContent(reply))
    ensures r.flags.(verified := f.verified) == f
  {
    if inputNum == "" then Verification(f, MissingCode)
    else if CodeExpired(f) then Verification(f, ExpiredCode)
    else if IsNoContent(reply) then Verification(f.(verified := true), Requested)
    else Verification(f, Requested)
  }

  /** The body of the nickname check's reply: `null`, or an object whose `isDuplicated` property is read. */
  datatype NameCheckBody = NullBody | NameCheckBody(isDuplicated: JsValue)

  /**
   * `checkNameDuplication`: a resolved reply sets `nameDuplicated` to the
   * truthiness of `response.data.isDuplicated` (an absent property reads as
   * `Undefined`). With a `null` body reading the property throws, the
   * `catch` only logs, and nothing changes.
   */
  function CheckNameDuplication(f: Flags, reply: Reply<NameCheckBody>): (r: Flags)
    ensures Resolves(reply) && reply.data.NameCheckBody? ==> (r.nameDuplicated <==> Truthy(reply.data.isDuplicated))
    ensures !(Resolves(reply) && reply.data.NameCheckBody?) ==> r == f
    ensures r.(nameDuplicated := f.nameDuplicated) == f
  {
    if Resolves(reply) && reply.data.NameCheckBody? then f.(nameDuplicated := Truthy(reply.data.isDuplicated)) else f
  }

  /**
   * Re-checking a nickname: a reply with a body overrides any earlier
   * verdict, while a failed or body-less reply leaves the earlier one.
   */
  lemma NameCheckLastAnswerWins(f: Flags, first: Reply<NameCheckBody>, second: Reply<NameCheckBody>)
    ensures Resolves(second) && second.data.NameCheckBody? ==>
              CheckNameDuplication(CheckNameDuplication(f, first), second) == CheckNameDuplication(f, second)
    ensures !(Resolves(second) && second.data.NameCheckBody?) ==>
              CheckNameDuplication(CheckNameDuplication(f, first), second) == CheckNameDuplication(f, first)
  {
  }

  /** The interactions of the sign-up page with the flags. */
  datatype SignUpEvent =
    | EmailRequested(emailReply: Reply<()>, now: int)
    | CodeChecked(inputNum: string, codeReply: Reply<()>)
    | NameChecked(nameReply: Reply<NameCheckBody>)

  function SignUpStep(f: Flags, e: SignUpEvent): Flags {
    match e
    case EmailRequested(reply, now) => RequestEmailForSignUp(f, reply, now)
    case CodeChecked(code, reply) => CheckCodeVerification(f, code, reply).flags
    case NameChecked(reply) => CheckNameDuplication(f, reply)
  }

  function SignUpRun(f: Flags, es: seq<SignUpEvent>): Flags
    decreases |es|
  {
    if es == [] then f else SignUpRun(SignUpStep(f, es[0]), es[1..])
  }

  /** Clock readings taken after 1970. */
  predicate ClockReadsNonNegative(es: seq<SignUpEvent>) {
    forall k :: 0 <= k < |es| ==> es[k].EmailRequested? ==> es[k].now >= 0
  }

  /** No expiry stamp and an issue stamp, if any, after 1970. */
  predicate NoExpiryStamp(f: Flags) {
    f.expireTime.None? && (f.takenTime.Some? ==> f.takenTime.value >= 0)
  }

  /** The sign-up flow never sets `expireTime`. */
  lemma {:induction false} SignUpRunKeepsNoExpiryStamp(f: Flags, es: seq<SignUpEvent>)
    requires NoExpiryStamp(f) && ClockReadsNonNegative(es)
    ensures NoExpiryStamp(SignUpRun(f, es))
    decreases |es|
  {
    if es != [] {
      assert ClockReadsNonNegative(es[1..]) by {
        forall k | 0 <= k < |es[1..]| ensures es[1..][k].EmailRequested? ==> es[1..][k].now >= 0 {
          assert es[1..][k] == es[k + 1];
        }
      }
      SignUpRunKeepsNoExpiryStamp(SignUpStep(f, es[0]), es[1..]);
    }
  }

  /**
   * Hence on the sign-up page the gate never fires: `null - takenTime` is
   * never positive, however long ago the code was sent.
   */
  lemma SignUpCodeNeverExpires(es: seq<SignUpEvent>)
    requires ClockReadsNonNegative(es)
    ensures !CodeExpired(SignUpRun(InitialFlags, es))
  {
    SignUpRunKeepsNoExpiryStamp(InitialFlags, es);
  }

  /**
   * In the reset flow, when the second and third clock reads fall in the
   * same minute, the stamps differ by ten minutes plus the time between the
   * first two reads, so the code is rejected at once exactly when the clock
   * ticked between them, and otherwise never expires.
   */
  lemma ResetCodeExpiredIffClockTicked(f: Flags, reply: Reply<()>, t1: int, t2: int, t3: int)
    requires IsNoContent(reply)
    requires MinuteOf(t2) == MinuteOf(t3)
    ensures CodeExpired(RequestEmailForReset(f, reply, t1, t2, t3)) <==> t2 > t1
  {
  }

  /** When the minute turns between the second and third reads, the code is rejected at once. */
  lemma ResetCodeExpiredAcrossMinute(f: Flags, reply: Reply<()>, t1: int, t2: int, t3: int)
    requires IsNoContent(reply)
    requires t1 <= t2 && MinuteOf(t3) == MinuteOf(t2) + 1
    ensures CodeExpired(RequestEmailForReset(f, reply, t1, t2, t3))
  {
  }

  /**
   * When the hour turns between them, the expiry stamp lies 49 minutes
   * before the second read, so the code is rejected only if issuing it took
   * more than 59 minutes.
   */
  lemma ResetCodeAcrossHour(f: Flags, reply: Reply<()>, t1: int, t2: int, t3: int)
    requires IsNoContent(reply)
    requires MinuteOf(t2) == 59 && MinuteOf(t3) == 0
    ensures CodeExpired(RequestEmailForReset(f, reply, t1, t2, t3)) <==> t2 - t1 > 59 * MillisPerMinute
  {
  }

  /**
   * The evident intent of the gate: a code is good for ten minutes after it
   * was issued, judged against the current clock reading `now`; with no
   * code issued there is nothing to check.
   */
  predicate CodeExpiredAt(f: Flags, now: int) {
    f.takenTime.None? || now - f.takenTime.value > CodeLifetime
  }

  /** `checkCodeVerification` with the intended gate. */
  function CheckCodeVerificationIntended(f: Flags, inputNum: string, now: int, reply: Reply<()>): (r: Verification)
    ensures r.step == Requested ==> f.takenTime.Some? && now - f.takenTime.value <= CodeLifetime
    ensures r.step != Requested ==> r.flags == f
    ensures r.flags.verified <==> f.verified || (r.step == Requested && IsNoContent(reply))
  {
    if inputNum == "" then Verification(f, MissingCode)
    else if CodeExpiredAt(f, now) then Verification(f, ExpiredCode)
    else if IsNoContent(reply) then Verification(f.(verified := true), Requested)
    else Verification(f, Requested)
  }

  /** With the intended gate, a code checked within ten minutes of its issue is sent, in either flow... */
  lemma IntendedGateAcceptsFreshCode(f: Flags, code: string, now: int, reply: Reply<()>)
    requires code != "" && f.takenTime.Some? && 0 <= now - f.takenTime.value <= CodeLifetime
    ensures CheckCodeVerificationIntended(f, code, now, reply).step == Requested
  {
  }

  /** ...and once a code has expired it stays expired. */
  lemma IntendedExpiryIsPermanent(f: Flags, now: int, later: int)
    requires CodeExpiredAt(f, now) && now <= later
    ensures CodeExpiredAt(f, later)
  {
  }

  // ---------------------------------------------------------------------------
  // Login and logout

  /** The body of a login reply; absent fields read as `undefined`. */
  datatype LoginData = LoginData(name: Option<string>, email: Option<string>, socialType: Option<string>)

  /** Browser storage together with the reducer state. */
  datatype Session = Session(store: Storage, state: UserState)

  /** `localStorage.setItem(key, v)` stores `String(v)`: an absent value becomes "undefined". */
  function Stringify(v: Option<string>): string {
    v.GetOr("undefined")
  }

  /** The keys `login` fills from the response headers, written first. */
  const LoginHeaderKeys: set<string> := {"accessToken", "refreshToken", "socialId"}

  /** The keys `login` fills from the response body, written after the header keys. */
  const LoginBodyKeys: set<string> := {"nickName", "email", "socialType"}

  /** The keys a successful login writes. */
  const LoginKeys: set<string> := LoginHeaderKeys + LoginBodyKeys

  /** The keys a successful logout removes; note the lower-case `socialid`. */
  const LogoutKeys: set<string> := {"accessToken", "refreshToken", "socialid", "nickName", "email", "socialType"}

  /**
   * The value `login` stores under each of its keys. The body is `None`
   * when it is JSON `null`; only the header keys can be read then.
   */
  function LoginValue(key: string, reply: Reply<Option<LoginData>>): string
    requires key in LoginKeys
    requires reply.Response? && (reply.data.None? ==> key in LoginHeaderKeys)
  {
    match key
    case "accessToken" => Stringify(HeaderProperty(reply.headers, "authorization-access"))
    case "refreshToken" => Stringify(HeaderProperty(reply.headers, "authorization-refresh"))
    case "socialId" => Stringify(HeaderGet(reply.headers, "socialId"))
    case "nickName" => Stringify(reply.data.value.name)
    case "email" => Stringify(reply.data.value.email)
    case _ => Stringify(reply.data.value.socialType)
  }

  /** The keys a resolved login reply gets written: all six, or only the header keys when the body is `null`. */
  function WrittenKeys(reply: Reply<Option<LoginData>>): set<string> {
    if reply.Response? && reply.data.Some? then LoginKeys else LoginHeaderKeys
  }

  /** The three `setItem` calls that read the response headers. */
  function StoreHeaderKeys(store: Storage, reply: Reply<Option<LoginData>>): (r: Storage)
    requires reply.Response?
    ensures r.Keys == store.Keys + LoginHeaderKeys
    ensures forall k :: k in LoginHeaderKeys ==> r[k] == LoginValue(k, reply)
    ensures forall k :: k in store && k !in LoginHeaderKeys ==> r[k] == store[k]
  {
    store
      ["accessToken" := LoginValue("accessToken", reply)]
      ["refreshToken" := LoginValue("refreshToken", reply)]
      ["socialId" := LoginValue("socialId", reply)]
  }

  /** The three `setItem` calls that read the response body. */
  function StoreBodyKeys(store: Storage, reply: Reply<Option<LoginData>>): (r: Storage)
    requires reply.Response? && reply.data.Some?
    ensures r.Keys == store.Keys + LoginBodyKeys
    ensures forall k :: k in LoginBodyKeys ==> r[k] == LoginValue(k, reply)
    ensures forall k :: k in store && k !in LoginBodyKeys ==> r[k] == store[k]
  {
    store
      ["nickName" := LoginValue("nickName", reply)]
      ["email" := LoginValue("email", reply)]
      ["socialType" := LoginValue("socialType", reply)]
  }

  /**
   * `login`: on a resolved reply, writes the tokens and the id from the
   * headers, then the name, email and social type from the body, and
   * dispatches the user. A `null` body makes `response.data.name` throw
   * after the header keys are written: the `catch` only alerts, so the body
   * keys keep their old values and no user is dispatched. A rejected
   * request changes nothing.
   */
  function Login(s: Session, reply: Reply<Option<LoginData>>, password: string, socialType: string): (r: Session)
    ensures !Resolves(reply) ==> r == s
    ensures Resolves(reply) ==> r.store.Keys == s.store.Keys + WrittenKeys(reply)
    ensures Resolves(reply) ==> forall k :: k in WrittenKeys(reply) ==> r.store[k] == LoginValue(k, reply)
    ensures Resolves(reply) ==> forall k :: k in s.store && k !in WrittenKeys(reply) ==> r.store[k] == s.store[k]
    ensures Resolves(reply) && reply.data.Some? ==>
              r.state == s.state.(user := Some(User(HeaderProperty(reply.headers, "socialId"),
                                                    reply.data.value.name, reply.data.value.email,
                                                    password, socialType)))
    ensures Resolves(reply) && reply.data.None? ==> r.state == s.state
  {
    if !Resolves(reply) then s
    else
      var fromHeaders := StoreHeaderKeys(s.store, reply);
      match reply.data
      case None => Session(fromHeaders, s.state)
      case Some(body) =>
        var user := User(HeaderProperty(reply.headers, "socialId"), body.name, body.email, password, socialType);
        Session(StoreBodyKeys(fromHeaders, reply), Reducer(s.state, Action(SetUser, Some(user))).value)
  }

  /**
   * The dispatched user never carries the id: `headers['socialId']` looks for
   * a mixed-case name among lower-cased ones, while storage gets it via `get`.
   */
  lemma LoginUserLacksSocialId(s: Session, reply: Reply<Option<LoginData>>, password: string, socialType: string)
    requires Resolves(reply) && reply.data.Some?
    ensures Login(s, reply, password, socialType).state.user.value.socialId.None?
  {
    MixedCaseNameMissing(reply.headers, "socialId", 6);
  }

  /**
   * A `null` login body still stores the id, so the browser looks signed in
   * (unless the id is empty), yet no user is dispatched.
   */
  lemma NullBodyLoginLooksSignedIn(s: Session, reply: Reply<Option<LoginData>>, password: string, socialType: string)
    requires Resolves(reply) && reply.data.None? && HeaderGet(reply.headers, "socialId") != Some("")
    ensures AppearsSignedIn(Login(s, reply, password, socialType).store)
    ensures Login(s, reply, password, socialType).state == s.state
  {
    assert "socialId" in WrittenKeys(reply);
  }

  /** A login reply without an access-token header makes every later request carry `Bearer undefined`. */
  lemma MissingTokenSentAsUndefined(s: Session, reply: Reply<Option<LoginData>>, password: string, socialType: string,
                                    headers: map<string, string>)
    requires Resolves(reply) && "authorization-access" !in reply.headers
    ensures Intercept(Login(s, reply, password, socialType).store, headers)[AccessHeader] == "Bearer undefined"
  {
    MissingTokenStoredAsUndefined(s, reply, password, socialType);
    StoredUndefinedIsSent(Login(s, reply, password, socialType).store, headers);
  }

  /** A stored `"undefined"` token is a non-empty string, so the interceptor sends it. */
  lemma StoredUndefinedIsSent(store: Storage, headers: map<string, string>)
    requires "accessToken" in store && store["accessToken"] == "undefined"
    ensures Intercept(store, headers)[AccessHeader] == "Bearer undefined"
  {
  }

  /** Without the access-token header, login stores the string "undefined" as the token. */
  lemma MissingTokenStoredAsUndefined(s: Session, reply: Reply<Option<LoginData>>, password: string, socialType: string)
    requires Resolves(reply) && "authorization-access" !in reply.headers
    ensures var store := Login(s, reply, password, socialType).store;
            "accessToken" in store && store["accessToken"] == "undefined"
  {
    assert "accessToken" in WrittenKeys(reply);
    assert LoginValue("accessToken", reply) == "undefined";
  }

  /**
   * `logout` as written: on a 204 reply removes the logout keys and clears
   * the user; otherwise nothing changes.
   */
  function Logout(s: Session, reply: Reply<()>): (r: Session)
    ensures IsNoContent(reply) ==> r.store == s.store - LogoutKeys
    ensures IsNoContent(reply) ==> r.state == s.state.(user := None)
    ensures !IsNoContent(reply) ==> r == s
  {
    if IsNoContent(reply) then Session(s.store - LogoutKeys, Reducer(s.state, Action(SetUser, None)).value)
    else s
  }

  /** The sign-up page's "already signed in" test, `localStorage.getItem('socialId')`. */
  predicate AppearsSignedIn(store: Storage) {
    StoredTruthy(store, "socialId")
  }

  /** Login writes `socialId` and logout removes `socialid`: the two key sets differ in that key alone. */
  lemma LoginAndLogoutKeysDiffer()
    ensures LoginKeys - LogoutKeys == {"socialId"}
    ensures LogoutKeys - LoginKeys == {"socialid"}
  {
  }

  /**
   * After a login and a successful logout the id is still stored, so the
   * browser still looks signed in unless the login reply carried an empty id.
   */
  lemma LogoutLeavesSocialId(s: Session, login: Reply<Option<LoginData>>, password: string, socialType: string,
                             logout: Reply<()>)
    requires Resolves(login) && IsNoContent(logout)
    ensures var r := Logout(Login(s, login, password, socialType), logout);
            "socialId" in r.store && r.store["socialId"] == LoginValue("socialId", login)
    ensures HeaderGet(login.headers, "socialId") != Some("") ==>
              AppearsSignedIn(Logout(Login(s, login, password, socialType), logout).store)
  {
  }

  /** `logout` with the key spelled as `login` writes it: every login key is removed. */
  function LogoutIntended(s: Session, reply: Reply<()>): (r: Session)
    ensures IsNoContent(reply) ==> r.store.Keys == s.store.Keys - LoginKeys && !AppearsSignedIn(r.store)
    ensures IsNoContent(reply) ==> r.state == s.state.(user := None)
    ensures !IsNoContent(reply) ==> r == s
  {
    if IsNoContent(reply) then Session(s.store - LoginKeys, Reducer(s.state, Action(SetUser, None)).value)
    else s
  }

  /** With the intended logout, logging in and out restores storage exactly, apart from the login keys. */
  lemma LoginThenLogoutRestoresStorage(s: Session, login: Reply<Option<LoginData>>, password: string, socialType: string,
                                       logout: Reply<()>)
    requires Resolves(login) && IsNoContent(logout)
    ensures LogoutIntended(Login(s, login, password, socialType), logout).store == s.store - LoginKeys
    ensures LogoutIntended(Login(s, login, password, socialType), logout).state.user.None?
  {
  }
}
