/**
  The decision rules of the index controller: which index view a request gets
  (device default, configured menu style, `nav-style` cookie), the screen-lock
  flag of the session, the cookie written when the menu style is switched, and
  the two password-policy checks.
 */
module SysIndexController {
  import opened Wrappers
  import opened StringUtils

  /** A request or response cookie; a cookie's value may be null. */
  datatype Cookie = Cookie(name: string, value: Option<string>)

  const NAV_STYLE: string := "nav-style"
  const TOPNAV: string := "topnav"
  const INDEX_VIEW: string := "index"
  const TOPNAV_VIEW: string := "index-topnav"

  /** The cookie the index page honours: a non-empty name equal to `nav-style` ignoring case. */
  predicate IsNavStyleCookie(c: Cookie)
  {
    |c.name| > 0 && EqualsIgnoreCase(NAV_STYLE, c.name)
  }

  /** The index of the first `nav-style` cookie at or after `lo`. */
  function FirstNavStyleFrom(cookies: seq<Cookie>, lo: nat): (r: Option<nat>)
    requires lo <= |cookies|
    ensures r.Some? ==> lo <= r.value < |cookies| && IsNavStyleCookie(cookies[r.value])
    ensures r.Some? ==> forall k :: lo <= k < r.value ==> !IsNavStyleCookie(cookies[k])
    ensures r.None? ==> forall k :: lo <= k < |cookies| ==> !IsNavStyleCookie(cookies[k])
    decreases |cookies| - lo
  {
    if lo == |cookies| then None
    else if IsNavStyleCookie(cookies[lo]) then Some(lo)
    else FirstNavStyleFrom(cookies, lo + 1)
  }

  /** The style the index page settles on: the first `nav-style` cookie's value, else
      `index` on a mobile agent, else the configured menu style. */
  function ResolvedStyle(isMobile: bool, menuStyle: Option<string>, cookies: seq<Cookie>): (r: Option<string>)
    ensures (forall k :: 0 <= k < |cookies| ==> !IsNavStyleCookie(cookies[k])) ==>
      r == if isMobile then Some(INDEX_VIEW) else menuStyle
    ensures (exists k :: 0 <= k < |cookies| && IsNavStyleCookie(cookies[k])) ==>
      exists k :: 0 <= k < |cookies| && IsNavStyleCookie(cookies[k]) && r == cookies[k].value
        && forall j :: 0 <= j < k ==> !IsNavStyleCookie(cookies[j])
  {
    match FirstNavStyleFrom(cookies, 0)
    case Some(k) => cookies[k].value
    case None => if isMobile then Some(INDEX_VIEW) else menuStyle
  }

  /** The view for a style: the top-navigation page iff the style is `topnav` ignoring case. */
  function ViewFor(style: Option<string>): (view: string)
    ensures view == TOPNAV_VIEW || view == INDEX_VIEW
    ensures view == TOPNAV_VIEW <==> style.Some? && EqualsIgnoreCase(TOPNAV, style.value)
    ensures style.None? ==> view == INDEX_VIEW
  {
    if style.Some? && EqualsIgnoreCase(TOPNAV, style.value) then TOPNAV_VIEW else INDEX_VIEW
  }

  /** The style decision at the end of `index`; `isMobile` is the verdict on the
      User-Agent header and `menuStyle` the `sys.index.menuStyle` configuration value. */
  method Index(isMobile: bool, menuStyle: Option<string>, cookies: seq<Cookie>) returns (view: string)
    ensures view == ViewFor(ResolvedStyle(isMobile, menuStyle, cookies))
    ensures view == TOPNAV_VIEW <==> (var s := ResolvedStyle(isMobile, menuStyle, cookies);
                                     s.Some? && EqualsIgnoreCase(TOPNAV, s.value))
    ensures view == TOPNAV_VIEW || view == INDEX_VIEW
  {
    var indexStyle := if isMobile then Some(INDEX_VIEW) else menuStyle;
    var i := 0;
    while i < |cookies|
      invariant 0 <= i <= |cookies|
      invariant forall k :: 0 <= k < i ==> !IsNavStyleCookie(cookies[k])
      invariant indexStyle == if isMobile then Some(INDEX_VIEW) else menuStyle
    {
      var cookie := cookies[i];
      if |cookie.name| > 0 && EqualsIgnoreCase(NAV_STYLE, cookie.name) {
        indexStyle := cookie.value;
        assert FirstNavStyleFrom(cookies, 0) == Some(i);
        break;
      }
      i := i + 1;
    }
    view := if indexStyle.Some? && EqualsIgnoreCase(TOPNAV, indexStyle.value) then TOPNAV_VIEW else INDEX_VIEW;
  }

  /** The first `nav-style` cookie decides the style, whatever the device and the configuration. */
  lemma CookieOverrides(isMobile: bool, menuStyle: Option<string>, cookies: seq<Cookie>, k: nat)
    requires k < |cookies| && IsNavStyleCookie(cookies[k])
    requires forall j :: 0 <= j < k ==> !IsNavStyleCookie(cookies[j])
    ensures ResolvedStyle(isMobile, menuStyle, cookies) == cookies[k].value
  {
    var r := FirstNavStyleFrom(cookies, 0);
    assert r.Some? && r.value == k;
  }

  /** Without a `nav-style` cookie a mobile agent always gets the plain index view. */
  lemma MobileWithoutCookie(menuStyle: Option<string>, cookies: seq<Cookie>)
    requires forall j :: 0 <= j < |cookies| ==> !IsNavStyleCookie(cookies[j])
    ensures ViewFor(ResolvedStyle(true, menuStyle, cookies)) == INDEX_VIEW
  {
  }

  /** Without a `nav-style` cookie a desktop agent's view follows the configured menu style. */
  lemma DesktopFollowsConfig(menuStyle: Option<string>, cookies: seq<Cookie>)
    requires forall j :: 0 <= j < |cookies| ==> !IsNavStyleCookie(cookies[j])
    ensures ViewFor(ResolvedStyle(false, menuStyle, cookies)) == ViewFor(menuStyle)
  {
  }

  /** The response of a request: the cookies it sets. */
  class Response {
    var cookies: seq<Cookie>

    constructor ()
      ensures cookies == []
    {
      cookies := [];
    }
  }

  /** The cookie `menuStyle(style)` writes. */
  function MenuStyleCookie(style: string): (c: Cookie)
    ensures IsNavStyleCookie(c) && c.value == Some(style)
  {
    Cookie(NAV_STYLE, Some(style))
  }

  /** `menuStyle(style)`: set a `nav-style` cookie holding `style` on the response. */
  method MenuStyle(style: string, response: Response)
    modifies response
    ensures response.cookies == old(response.cookies) + [MenuStyleCookie(style)]
  {
    response.cookies := response.cookies + [Cookie(NAV_STYLE, Some(style))];
  }

  /** A later request that carries the written cookie ahead of any other `nav-style`
      cookie gets the top-navigation view iff `style` is `topnav` ignoring case. */
  lemma MenuStyleThenIndex(style: string, isMobile: bool, menuStyle: Option<string>, before: seq<Cookie>, after: seq<Cookie>)
    requires forall j :: 0 <= j < |before| ==> !IsNavStyleCookie(before[j])
    ensures var cookies := before + [MenuStyleCookie(style)] + after;
      ViewFor(ResolvedStyle(isMobile, menuStyle, cookies)) == TOPNAV_VIEW <==> EqualsIgnoreCase(TOPNAV, style)
  {
    var cookies := before + [MenuStyleCookie(style)] + after;
    CookieOverrides(isMobile, menuStyle, cookies, |before|);
  }

  /** The current user as the session knows it. */
  datatype SysUser = SysUser(loginName: string, pwdUpdateDate: Option<Date>)

  /** A point in time, in milliseconds. */
  type Date = int

  /** The messages `unlockscreen` can fail with. */
  datatype UnlockError = SessionTimedOut | WrongPassword

  /** `AjaxResult`: success or an error message. */
  datatype AjaxResult = Success | Error(reason: UnlockError)

  /** One screen event: a lock, or an unlock attempt by a present or missing user whose
      password does or does not match. */
  datatype ScreenEvent = Lock | Unlock(userPresent: bool, passwordMatches: bool)

  predicate Unlocks(e: ScreenEvent)
  {
    e.Unlock? && e.userPresent && e.passwordMatches
  }

  /** The `LOCK_SCREEN` flag after one event. */
  function Step(locked: bool, e: ScreenEvent): (after: bool)
    ensures e.Lock? ==> after
    ensures Unlocks(e) ==> !after
    ensures e.Unlock? && !Unlocks(e) ==> after == locked
  {
    match e
    case Lock => true
    case Unlock(userPresent, passwordMatches) => if userPresent && passwordMatches then false else locked
  }

  /** The flag after a sequence of events. */
  function Run(locked: bool, events: seq<ScreenEvent>): bool
    decreases |events|
  {
    if events == [] then locked else Step(Run(locked, events[..|events| - 1]), events[|events| - 1])
  }

  /** No event from position `from` on is a successful unlock. */
  predicate NoUnlockSince(events: seq<ScreenEvent>, from: nat)
  {
    forall j :: from <= j < |events| ==> !Unlocks(events[j])
  }

  /** The lock at position `i` still stands at the end of `events`. */
  predicate LockStands(events: seq<ScreenEvent>, i: nat)
  {
    i < |events| && events[i].Lock? && NoUnlockSince(events, i + 1)
  }

  /** The screen is locked iff some lock has not been followed by a successful unlock,
      or it started locked and no unlock has succeeded since. */
  lemma {:induction false} RunLockedIff(locked: bool, events: seq<ScreenEvent>)
    ensures Run(locked, events) <==>
      (exists i: nat :: LockStands(events, i)) || (locked && NoUnlockSince(events, 0))
    decreases |events|
  {
    if events != [] {
      var n := |events| - 1;
      var prefix := events[..n];
      RunLockedIff(locked, prefix);
      var e := events[n];
      if e.Lock? {
        assert LockStands(events, n);
      } else if Unlocks(e) {
        assert !exists i: nat :: LockStands(events, i) by {
          assert Unlocks(events[n]);
        }
        assert !NoUnlockSince(events, 0) by {
          assert Unlocks(events[n]);
        }
      } else {
        if exists i: nat :: LockStands(prefix, i) {
          var i: nat :| LockStands(prefix, i);
          assert LockStands(events, i);
        }
        if exists i: nat :: LockStands(events, i) {
          var i: nat :| LockStands(events, i);
          assert LockStands(prefix, i);
        }
        assert NoUnlockSince(events, 0) <==> NoUnlockSince(prefix, 0);
      }
    }
  }

  /** The session's `LOCK_SCREEN` attribute. */
  class Session {
    var locked: bool

    constructor ()
      ensures !locked
    {
      locked := false;
    }

    /** `lockscreen`: set the flag and show the lock page. */
    method Lockscreen() returns (view: string)
      modifies this
      ensures locked == Step(old(locked), Lock)
      ensures locked && view == "lock"
    {
      locked := true;
      view := "lock";
    }

    /** `unlockscreen`: with no user, report a session timeout; with a matching password,
        clear the flag; otherwise report a wrong password. Only success clears the flag. */
    method Unlockscreen(user: Option<SysUser>, passwordMatches: bool) returns (result: AjaxResult)
      modifies this
      ensures locked == Step(old(locked), Unlock(user.Some?, passwordMatches))
      ensures user.None? ==> result == Error(SessionTimedOut) && locked == old(locked)
      ensures user.Some? && passwordMatches ==> result == Success && !locked
      ensures user.Some? && !passwordMatches ==> result == Error(WrongPassword) && locked == old(locked)
    {
      if user.None? {
        return Error(SessionTimedOut);
      }
      if passwordMatches {
        locked := false;
        return Success;
      }
      return Error(WrongPassword);
    }
  }

  /** `initPasswordIsModify`: remind the user to change the initial password iff the
      `sys.account.initPasswordModify` setting converts to 1 and the password was never updated. */
  function InitPasswordIsModify(initPasswordModify: Option<int>, pwdUpdateDate: Option<Date>): (remind: bool)
    ensures remind <==> initPasswordModify == Some(1) && pwdUpdateDate == None
  {
    initPasswordModify.Some? && initPasswordModify.value == 1 && pwdUpdateDate.None?
  }

  /** `passwordIsExpiration`: with `sys.account.passwordValidateDays` missing or not positive
      the check is off; otherwise a never-updated password is expired, and an updated one is
      expired iff more whole days than allowed have passed since the update. */
  function PasswordIsExpiration(passwordValidateDays: Option<int>, pwdUpdateDate: Option<Date>, daysSinceUpdate: int): (expired: bool)
    ensures passwordValidateDays.None? || passwordValidateDays.value <= 0 ==> !expired
    ensures passwordValidateDays.Some? && passwordValidateDays.value > 0 && pwdUpdateDate.None? ==> expired
    ensures passwordValidateDays.Some? && passwordValidateDays.value > 0 && pwdUpdateDate.Some? ==>
      (expired <==> daysSinceUpdate > passwordValidateDays.value)
  {
    if passwordValidateDays.Some? && passwordValidateDays.value > 0 then
      if pwdUpdateDate.None? then true
      else daysSinceUpdate > passwordValidateDays.value
    else false
  }

  /** Once expired, a password stays expired as more days pass, and a shorter validity
      period never turns an expired password back into a valid one. */
  lemma ExpirationMonotone(days: int, shorter: int, pwdUpdateDate: Option<Date>, d1: int, d2: int)
    requires 0 < shorter <= days && d1 <= d2
    ensures PasswordIsExpiration(Some(days), pwdUpdateDate, d1) ==> PasswordIsExpiration(Some(days), pwdUpdateDate, d2)
    ensures PasswordIsExpiration(Some(days), pwdUpdateDate, d1) ==> PasswordIsExpiration(Some(shorter), pwdUpdateDate, d1)
  {
  }
}
