/** The login session kept in the browser's local storage: the two tokens,
    their expiry instant and the user key, as a string key/value table that
    the functions below read and rewrite. Each reading of the clock is a
    parameter (milliseconds since the epoch). */
module TokenStorage {
  import opened Wrappers
  import Decimal

  const AccessTokenKey: string := "toss_access_token"
  const RefreshTokenKey: string := "toss_refresh_token"
  const ExpiresAtKey: string := "toss_token_expires_at"
  const UserKeyKey: string := "user_key"

  /** Every key this module writes. */
  const SessionKeys: set<string> := {AccessTokenKey, RefreshTokenKey, ExpiresAtKey, UserKeyKey}

  type Store = map<string, string>

  /** `expiresIn` is in seconds. */
  datatype AuthTokens = AuthTokens(accessToken: string, refreshToken: string, expiresIn: int)

  /** `Number(s)` on the text this module stores: the integer it spells. */
  function NumberOf(s: string): int {
    match Decimal.ParseInteger(s)
    case Some(n) => n
    case None => 0
  }

  /** The numbers this module stores are written with `String(n)`. */
  predicate IsNumberText(s: string) {
    Decimal.ParseInteger(s).Some?
  }

  predicate ValidStore(st: Store) {
    && (ExpiresAtKey in st ==> IsNumberText(st[ExpiresAtKey]))
    && (UserKeyKey in st ==> IsNumberText(st[UserKeyKey]))
  }

  /** `localStorage.getItem(k)` used as a condition: absent and empty are
      both falsy. */
  predicate Present(st: Store, k: string) {
    k in st && st[k] != ""
  }

  // ----- The table operations -----

  /** `saveAuthTokens`: both tokens and the expiry instant
      `now + expiresIn * 1000`. */
  function SaveTokens(st: Store, t: AuthTokens, now: int): Store {
    st[AccessTokenKey := t.accessToken]
      [RefreshTokenKey := t.refreshToken]
      [ExpiresAtKey := Decimal.Show(now + t.expiresIn * 1000)]
  }

  /** `saveUserKey`. */
  function PutUserKey(st: Store, userKey: int): Store {
    st[UserKeyKey := Decimal.Show(userKey)]
  }

  /** `getUserKey`: null for an absent or empty entry. */
  function ReadUserKey(st: Store): Option<int> {
    if Present(st, UserKeyKey) then Some(NumberOf(st[UserKeyKey])) else None
  }

  /** `clearAuthTokens`: removes the four session keys, the user key too. */
  function Clear(st: Store): Store {
    st - SessionKeys
  }

  /** The seconds left until `expiresAt`, rounded down. */
  function SecondsLeft(expiresAt: int, now: int): int {
    (expiresAt - now) / 1000
  }

  /** `getStoredAuthTokens` as written: the tokens read back, and the table
      afterwards. The clock is read twice: `now` for the expiry test and
      `later` for the lifetime. */
  function ReadTokens(st: Store, now: int, later: int): (Option<AuthTokens>, Store) {
    if !Present(st, AccessTokenKey) || !Present(st, RefreshTokenKey) || !Present(st, ExpiresAtKey) then
      (None, st)
    else
      var expiresAt := NumberOf(st[ExpiresAtKey]);
      if now > expiresAt then (None, Clear(st))
      else (Some(AuthTokens(st[AccessTokenKey], st[RefreshTokenKey], SecondsLeft(expiresAt, later))), st)
  }

  /** `getStoredAuthTokens` with one clock reading for both the expiry test
      and the lifetime, so a token that passes the test never comes back
      with a negative lifetime. */
  function ReadTokensOnce(st: Store, now: int): (r: (Option<AuthTokens>, Store))
    ensures r.0.Some? ==> r.0.value.expiresIn >= 0
  {
    ReadTokens(st, now, now)
  }

  // ----- What the operations promise -----

  /** Saved tokens read back at the same instant are the tokens saved, and
      reading leaves the table as it was. */
  lemma SaveThenRead(st: Store, t: AuthTokens, now: int)
    requires t.accessToken != "" && t.refreshToken != "" && t.expiresIn >= 0
    ensures ReadTokensOnce(SaveTokens(st, t, now), now) == (Some(t), SaveTokens(st, t, now))
  {
    var saved := SaveTokens(st, t, now);
    var expiresAt := now + t.expiresIn * 1000;
    Decimal.ParseShow(expiresAt);
    assert saved[AccessTokenKey] == t.accessToken && saved[RefreshTokenKey] == t.refreshToken;
    assert saved[ExpiresAtKey] == Decimal.Show(expiresAt) != "";
    assert NumberOf(saved[ExpiresAtKey]) == expiresAt;
    assert SecondsLeft(expiresAt, now) == t.expiresIn;
  }

  /** Tokens saved with a negative lifetime have already expired: reading
      them at once clears the session. */
  lemma SaveExpiredThenRead(st: Store, t: AuthTokens, now: int, later: int)
    requires t.accessToken != "" && t.refreshToken != "" && t.expiresIn < 0
    ensures ReadTokens(SaveTokens(st, t, now), now, later) == (None, Clear(SaveTokens(st, t, now)))
  {
    var expiresAt := now + t.expiresIn * 1000;
    Decimal.ParseShow(expiresAt);
    assert SaveTokens(st, t, now)[ExpiresAtKey] == Decimal.Show(expiresAt);
    assert NumberOf(Decimal.Show(expiresAt)) == expiresAt;
  }

  /** A missing or empty token entry yields null and changes nothing. */
  lemma MissingEntryKeepsStore(st: Store, now: int, later: int)
    requires !Present(st, AccessTokenKey) || !Present(st, RefreshTokenKey) || !Present(st, ExpiresAtKey)
    ensures ReadTokens(st, now, later) == (None, st)
  {
  }

  /** Tokens are returned exactly when all three entries are present and the
      expiry instant has not passed; past it the whole session, user key
      included, is removed. */
  lemma ReadTokensOutcome(st: Store, now: int, later: int)
    requires ValidStore(st)
    ensures var (r, after) := ReadTokens(st, now, later);
      var complete := Present(st, AccessTokenKey) && Present(st, RefreshTokenKey) && Present(st, ExpiresAtKey);
      && (r.Some? <==> complete && now <= NumberOf(st[ExpiresAtKey]))
      && (r.Some? ==> after == st && r.value.accessToken == st[AccessTokenKey] && r.value.refreshToken == st[RefreshTokenKey])
      && (complete && now > NumberOf(st[ExpiresAtKey]) ==> after == Clear(st) && SessionKeys !! after.Keys)
  {
  }

  /** With one clock reading, a returned lifetime is never negative, is the
      whole seconds left, and is 0 at the expiry instant itself. */
  lemma ReadLifetime(st: Store, now: int)
    requires ValidStore(st) && ReadTokensOnce(st, now).0.Some?
    ensures var e, expiresAt := ReadTokensOnce(st, now).0.value.expiresIn, NumberOf(st[ExpiresAtKey]);
      && e >= 0
      && e * 1000 <= expiresAt - now < (e + 1) * 1000
      && (now == expiresAt ==> e == 0)
  {
  }

  /** As written, the lifetime is the whole seconds left at the second
      reading. It can be negative only when the clock moved past the expiry
      instant between the two readings, and by less than one second it moved
      at most -1. */
  lemma ReadLifetimeAsWritten(st: Store, now: int, later: int)
    requires ValidStore(st) && ReadTokens(st, now, later).0.Some?
    ensures var e, expiresAt := ReadTokens(st, now, later).0.value.expiresIn, NumberOf(st[ExpiresAtKey]);
      && now <= expiresAt
      && e * 1000 <= expiresAt - later < (e + 1) * 1000
      && (e < 0 <==> later > expiresAt)
      && (now <= later < now + 1000 ==> e >= -1)
  {
  }

  /** Tokens saved with a lifetime of 0 and read while the clock ticks one
      millisecond between the expiry test and the lifetime come back with a
      lifetime of -1. */
  lemma LifetimeCanBeMinusOne(st: Store, t: AuthTokens, now: int)
    requires t.accessToken != "" && t.refreshToken != "" && t.expiresIn == 0
    ensures ReadTokens(SaveTokens(st, t, now), now, now + 1).0
      == Some(AuthTokens(t.accessToken, t.refreshToken, -1))
  {
    Decimal.ParseShow(now);
    assert SaveTokens(st, t, now)[ExpiresAtKey] == Decimal.Show(now);
    assert NumberOf(Decimal.Show(now)) == now;
  }

  /** Clearing removes exactly the session keys and keeps every other entry. */
  lemma ClearRemovesSession(st: Store)
    ensures forall k :: k in Clear(st) <==> k in st && k !in SessionKeys
    ensures forall k :: k in Clear(st) ==> Clear(st)[k] == st[k]
  {
  }

  lemma ClearIdempotent(st: Store)
    ensures Clear(Clear(st)) == Clear(st)
  {
  }

  /** After clearing, neither tokens nor a user key can be read. */
  lemma ClearedStoreIsEmptySession(st: Store, now: int, later: int)
    ensures ReadTokens(Clear(st), now, later).0 == None
    ensures ReadUserKey(Clear(st)) == None
  {
  }

  /** A saved user key reads back as itself. */
  lemma SaveThenReadUserKey(st: Store, userKey: int)
    ensures ReadUserKey(PutUserKey(st, userKey)) == Some(userKey)
  {
    Decimal.ParseShow(userKey);
    assert Decimal.Show(userKey) != "";
  }

  /** Without a (non-empty) entry there is no user key. */
  lemma ReadUserKeyAbsent(st: Store)
    ensures ReadUserKey(st) == None <==> !Present(st, UserKeyKey)
  {
  }

  /** Saving tokens leaves the user key and every foreign entry alone, and
      saving the user key leaves the tokens alone. */
  lemma SavesTouchOnlyTheirKeys(st: Store, t: AuthTokens, userKey: int, now: int)
    ensures forall k :: k in st && k !in {AccessTokenKey, RefreshTokenKey, ExpiresAtKey} ==>
      k in SaveTokens(st, t, now) && SaveTokens(st, t, now)[k] == st[k]
    ensures forall k :: k in st && k != UserKeyKey ==>
      k in PutUserKey(st, userKey) && PutUserKey(st, userKey)[k] == st[k]
  {
  }

  /** Every operation keeps the stored numbers readable. */
  lemma OperationsKeepStoreValid(st: Store, t: AuthTokens, userKey: int, now: int, later: int)
    requires ValidStore(st)
    ensures ValidStore(SaveTokens(st, t, now))
    ensures ValidStore(PutUserKey(st, userKey))
    ensures ValidStore(Clear(st))
    ensures ValidStore(ReadTokens(st, now, later).1)
  {
    Decimal.ParseShow(now + t.expiresIn * 1000);
    Decimal.ParseShow(userKey);
  }

  // ----- The storage object -----

  /** The local-storage table the four functions share. */
  class AuthStorage {
    var items: Store

    ghost predicate Valid()
      reads this
    {
      ValidStore(items)
    }

    constructor (initial: Store)
      requires ValidStore(initial)
      ensures Valid() && items == initial
    {
      items := initial;
    }

    method SaveAuthTokens(t: AuthTokens, now: int)
      requires Valid()
      modifies this
      ensures Valid() && items == SaveTokens(old(items), t, now)
    {
      OperationsKeepStoreValid(items, t, 0, now, now);
      items := items[AccessTokenKey := t.accessToken];
      items := items[RefreshTokenKey := t.refreshToken];
      items := items[ExpiresAtKey := Decimal.Show(now + t.expiresIn * 1000)];
    }

    method SaveUserKey(userKey: int)
      requires Valid()
      modifies this
      ensures Valid() && items == PutUserKey(old(items), userKey)
    {
      OperationsKeepStoreValid(items, AuthTokens("", "", 0), userKey, 0, 0);
      items := items[UserKeyKey := Decimal.Show(userKey)];
    }

    method GetUserKey() returns (r: Option<int>)
      ensures r == ReadUserKey(items)
    {
      if UserKeyKey in items && items[UserKeyKey] != "" {
        r := Some(NumberOf(items[UserKeyKey]));
      } else {
        r := None;
      }
    }

    method ClearAuthTokens()
      requires Valid()
      modifies this
      ensures Valid() && items == Clear(old(items))
    {
      items := items - {AccessTokenKey};
      items := items - {RefreshTokenKey};
      items := items - {ExpiresAtKey};
      items := items - {UserKeyKey};
    }

    /** `now` is the clock at the expiry test, `later` the clock when the
        lifetime is computed. */
    method GetStoredAuthTokens(now: int, later: int) returns (r: Option<AuthTokens>)
      requires Valid()
      modifies this
      ensures Valid() && (r, items) == ReadTokens(old(items), now, later)
    {
      var accessToken := if AccessTokenKey in items then items[AccessTokenKey] else "";
      var refreshToken := if RefreshTokenKey in items then items[RefreshTokenKey] else "";
      var expiresAt := if ExpiresAtKey in items then items[ExpiresAtKey] else "";
      if accessToken == "" || refreshToken == "" || expiresAt == "" {
        return None;
      }
      if now > NumberOf(expiresAt) {
        ClearAuthTokens();
        return None;
      }
      r := Some(AuthTokens(accessToken, refreshToken, (NumberOf(expiresAt) - later) / 1000));
    }
  }
}
