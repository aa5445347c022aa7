/** AuthContext.js as a state machine over the key-value store
    (AsyncStorage) and the signed-in user. Records written with
    `JSON.stringify` are kept as structured values; what `JSON.parse` makes
    of any other stored text is a parameter, `parseRaw`. The clock values
    (`Date.now()` for ids, the ISO date of `createdAt`) are parameters. */
module Auth {
  import opened Common
  import opened Lists
  import Text

  /** A field of a user record: a string or `null`. */
  datatype Scalar = Str(text: string) | Null

  type UserData = map<string, Scalar>

  /** A stored value: plain text (a password), or a serialised record. */
  datatype Value = Raw(text: string) | Json(record: UserData)

  type Store = map<string, Value>

  /** What `JSON.parse` yields: a record, a value that is not a record (a
      number, a string, ...; reading `.email` from it gives `undefined`),
      or an exception with its message. */
  datatype Parsed = Record(data: UserData) | NotRecord | ParseError(message: string)

  datatype State = State(store: Store, user: Option<UserData>)

  /** `{ success: true }` or `{ success: false, error }`. */
  datatype Reply = Success | Failure(error: string)

  datatype Outcome = Outcome(reply: Reply, state: State)

  const UserKey := "user"
  const InvalidCredentials := "Неверный email или пароль"

  /** `user_${id}_password` */
  function PasswordKey(id: string): (k: string)
    ensures Text.StartsWith(k, "user_")
  {
    "user_" + id + "_password"
  }

  /** The keys `login` reads records from. */
  function Scanned(key: string): (r: bool)
    ensures r <==> |key| >= 5 && key[..5] == "user_" && forall p :: !Text.OccursAt(key, "_password", p)
  {
    Text.StartsWith(key, "user_") && !Text.Includes(key, "_password")
  }

  /** Neither key `register` writes is one `login` reads. */
  lemma RegisterKeysNotScanned(id: string)
    ensures !Scanned(UserKey)
    ensures !Scanned(PasswordKey(id))
  {
    var k := PasswordKey(id);
    assert Text.OccursAt(k, "_password", 5 + |id|) by {
      assert k[5 + |id|..5 + |id| + 9] == "_password";
    }
  }

  /** `JSON.parse(await AsyncStorage.getItem(key))` for a present key. */
  function Parse(v: Value, parseRaw: string -> Parsed): Parsed
  {
    match v
    case Json(d) => Record(d)
    case Raw(t) => parseRaw(t)
  }

  /** `${userData.id}`: a missing field prints as "undefined", null as
      "null". */
  function IdText(d: UserData): string
  {
    if "id" !in d then "undefined"
    else match d["id"]
      case Str(s) => s
      case Null => "null"
  }

  /** The verdict of one loop iteration of `login`. */
  datatype Step = Match(data: UserData) | Skip | Throw(message: string)

  /** The record has exactly the e-mail, and the value under its password
      key is exactly the password. */
  predicate Accepts(store: Store, d: UserData, email: string, password: string)
  {
    && "email" in d && d["email"] == Str(email)
    && PasswordKey(IdText(d)) in store && store[PasswordKey(IdText(d))] == Raw(password)
  }

  /** One iteration: the record must have exactly the e-mail, and the value
      under its password key must be exactly the password; otherwise the
      loop goes on. */
  function Check(store: Store, key: string, email: string, password: string, parseRaw: string -> Parsed): (r: Step)
    requires key in store
    ensures r.Match? ==> Parse(store[key], parseRaw) == Record(r.data) && Accepts(store, r.data, email, password)
    ensures Parse(store[key], parseRaw).Record? && Accepts(store, Parse(store[key], parseRaw).data, email, password)
      ==> r.Match?
    ensures r.Throw? <==> Parse(store[key], parseRaw).ParseError?
    ensures r.Throw? ==> r.message == Parse(store[key], parseRaw).message
  {
    match Parse(store[key], parseRaw)
    case ParseError(m) => Throw(m)
    case NotRecord => Skip
    case Record(d) =>
      if "email" in d && d["email"] == Str(email) then
        var pk := PasswordKey(IdText(d));
        if pk in store && store[pk] == Raw(password) then Match(d) else Skip
      else Skip
  }

  /** The `for` loop: the first iteration that does not skip decides. */
  function Scan(store: Store, keys: seq<string>, email: string, password: string, parseRaw: string -> Parsed): (r: Step)
    requires forall i :: 0 <= i < |keys| ==> keys[i] in store
    ensures r.Skip? <==> forall i :: 0 <= i < |keys| ==> Check(store, keys[i], email, password, parseRaw).Skip?
    ensures !r.Skip? ==>
      (exists i :: 0 <= i < |keys| && r == Check(store, keys[i], email, password, parseRaw)
        && forall j :: 0 <= j < i ==> Check(store, keys[j], email, password, parseRaw).Skip?)
  {
    if |keys| == 0 then Skip
    else
      assert forall j :: 1 <= j < |keys| ==> keys[j] == keys[1..][j - 1];
      match Check(store, keys[0], email, password, parseRaw)
      case Skip => Scan(store, keys[1..], email, password, parseRaw)
      case other => other
  }

  /** `login(email, password)`. `keys` is what `getAllKeys` returns: every
      key of the store. */
  function Login(state: State, keys: seq<string>, email: string, password: string, parseRaw: string -> Parsed): (r: Outcome)
    requires forall k :: k in keys <==> k in state.store
    ensures r.reply.Failure? ==> r.state == state
    ensures r.reply.Success? ==>
      && r.state.user.Some?
      && r.state.store == state.store[UserKey := Json(r.state.user.value)]
      && exists key :: key in state.store && Scanned(key)
           && Check(state.store, key, email, password, parseRaw) == Match(r.state.user.value)
    ensures (forall key :: key in state.store && Scanned(key) ==> Check(state.store, key, email, password, parseRaw).Skip?)
      ==> r == Outcome(Failure(InvalidCredentials), state)
    ensures (forall key :: key in state.store && Scanned(key) ==> !Check(state.store, key, email, password, parseRaw).Throw?)
      ==> (r.reply.Success? <==> exists key :: key in state.store && Scanned(key)
                                   && Check(state.store, key, email, password, parseRaw).Match?)
  {
    var scanned := Filter(keys, Scanned);
    assert forall i :: 0 <= i < |scanned| ==> scanned[i] in keys && Scanned(scanned[i]);
    assert forall key :: key in state.store && Scanned(key) ==> key in scanned;
    match Scan(state.store, scanned, email, password, parseRaw)
    case Match(d) => Outcome(Success, State(state.store[UserKey := Json(d)], Some(d)))
    case Skip => Outcome(Failure(InvalidCredentials), state)
    case Throw(m) => Outcome(Failure(m), state)
  }

  /** An e-mail match with the wrong password does not end the loop: the
      next key is tried. */
  lemma WrongPasswordContinues(store: Store, first: string, rest: seq<string>, email: string, password: string, parseRaw: string -> Parsed)
    requires first in store && forall i :: 0 <= i < |rest| ==> rest[i] in store
    requires store[first].Json? && "email" in store[first].record && store[first].record["email"] == Str(email)
    requires PasswordKey(IdText(store[first].record)) !in store || store[PasswordKey(IdText(store[first].record))] != Raw(password)
    ensures Scan(store, [first] + rest, email, password, parseRaw) == Scan(store, rest, email, password, parseRaw)
  {
    assert ([first] + rest)[1..] == rest;
  }

  /** `register(email, password)` with `id = Date.now().toString()` and
      `createdAt` the current ISO date. */
  function Register(state: State, email: string, password: string, id: string, createdAt: string): (r: Outcome)
    ensures r.reply == Success
    ensures r.state.store.Keys == state.store.Keys + {UserKey, PasswordKey(id)}
    ensures forall k :: k in state.store && k != UserKey && k != PasswordKey(id) ==> r.state.store[k] == state.store[k]
    ensures r.state.store[PasswordKey(id)] == Raw(password)
    ensures r.state.user.Some? && r.state.store[UserKey] == Json(r.state.user.value)
    ensures var d := r.state.user.value;
      d.Keys == {"id", "email", "createdAt", "avatar"}
      && d["id"] == Str(id) && d["email"] == Str(email) && d["createdAt"] == Str(createdAt) && d["avatar"] == Null
  {
    var d := map["id" := Str(id), "email" := Str(email), "createdAt" := Str(createdAt), "avatar" := Null];
    assert PasswordKey(id) != UserKey by {
      assert |PasswordKey(id)| > |UserKey|;
    }
    Outcome(Success, State(state.store[UserKey := Json(d)][PasswordKey(id) := Raw(password)], Some(d)))
  }

  /** On a store that holds no key `login` reads, registering adds none
      either, so a login right after registering fails whatever the e-mail
      and password, and changes nothing. */
  lemma LoginAfterRegisterFails(state: State, email: string, password: string, id: string, createdAt: string,
                                keys: seq<string>, loginEmail: string, loginPassword: string, parseRaw: string -> Parsed)
    requires forall k :: k in state.store ==> !Scanned(k)
    requires forall k :: k in keys <==> k in Register(state, email, password, id, createdAt).state.store
    ensures var after := Register(state, email, password, id, createdAt).state;
      Login(after, keys, loginEmail, loginPassword, parseRaw) == Outcome(Failure(InvalidCredentials), after)
  {
    RegisterKeysNotScanned(id);
  }

  /** The key a record is evidently meant to be stored under for `login`
      to find it: `user_${id}`. */
  function RecordKey(id: string): (k: string)
    ensures Text.StartsWith(k, "user_")
  {
    "user_" + id
  }

  /** An id as `Date.now().toString()` makes it: decimal digits. */
  predicate IsDigits(id: string)
  {
    forall i :: 0 <= i < |id| ==> '0' <= id[i] <= '9'
  }

  /** A record key with a numeric id is scanned by `login`. */
  lemma RecordKeyScanned(id: string)
    requires IsDigits(id)
    ensures Scanned(RecordKey(id))
  {
    var k := RecordKey(id);
    forall p | 0 <= p && p + 9 <= |k|
      ensures !Text.OccursAt(k, "_password", p)
    {
      var w := k[p..p + 9];
      if p < 4 {
        assert w[0] == "user"[p];
      } else if p == 4 {
        assert w[1] == id[0];
      } else {
        assert w[0] == id[p - 5];
      }
      assert w != "_password" by {
        assert w[0] != '_' || w[1] != 'p';
      }
    }
  }

  /** `register` as evidently intended: besides `user` and the password,
      it stores the record under `user_${id}`, where `login` looks. */
  function RegisterWithRecord(state: State, email: string, password: string, id: string, createdAt: string): (r: Outcome)
    ensures r.reply == Success
    ensures r.state.store.Keys == state.store.Keys + {UserKey, RecordKey(id), PasswordKey(id)}
    ensures forall k :: k in state.store && k !in {UserKey, RecordKey(id), PasswordKey(id)} ==> r.state.store[k] == state.store[k]
    ensures r.state.user.Some?
    ensures r.state.store[UserKey] == Json(r.state.user.value) && r.state.store[RecordKey(id)] == Json(r.state.user.value)
    ensures r.state.store[PasswordKey(id)] == Raw(password)
    ensures r.state.user.value == Register(state, email, password, id, createdAt).state.user.value
  {
    var registered := Register(state, email, password, id, createdAt).state;
    var d := registered.user.value;
    assert RecordKey(id) != PasswordKey(id) by {
      assert |RecordKey(id)| < |PasswordKey(id)|;
    }
    assert RecordKey(id) != UserKey by {
      assert |RecordKey(id)| > |UserKey|;
    }
    Outcome(Success, State(registered.store[RecordKey(id) := Json(d)], Some(d)))
  }

  /** With the record stored, a login right after registering, with the same
      e-mail and password, succeeds and signs in the registered user. */
  lemma LoginAfterRegisterWithRecordSucceeds(state: State, email: string, password: string, id: string, createdAt: string,
                                             keys: seq<string>, parseRaw: string -> Parsed)
    requires IsDigits(id)
    requires forall k :: k in state.store ==> !Scanned(k)
    requires forall k :: k in keys <==> k in RegisterWithRecord(state, email, password, id, createdAt).state.store
    ensures var after := RegisterWithRecord(state, email, password, id, createdAt).state;
      && Login(after, keys, email, password, parseRaw).reply == Success
      && Login(after, keys, email, password, parseRaw).state.user == after.user
  {
    var after := RegisterWithRecord(state, email, password, id, createdAt).state;
    var d := after.user.value;
    RegisterKeysNotScanned(id);
    RecordKeyScanned(id);
    assert IdText(d) == id;
    var key := RecordKey(id);
    assert Check(after.store, key, email, password, parseRaw) == Match(d);
    forall k | k in after.store && Scanned(k)
      ensures k == key
    {
    }
  }

  /** `logout()`: only the `user` key is removed. */
  function Logout(state: State): (r: State)
    ensures r.user.None?
    ensures UserKey !in r.store
    ensures forall k :: k != UserKey ==> (k in r.store <==> k in state.store)
    ensures forall k :: k in r.store ==> r.store[k] == state.store[k]
  {
    State(state.store - {UserKey}, None)
  }

  /** Password keys survive a logout. */
  lemma LogoutKeepsPasswords(state: State, id: string)
    requires PasswordKey(id) in state.store
    ensures PasswordKey(id) in Logout(state).store
    ensures Logout(state).store[PasswordKey(id)] == state.store[PasswordKey(id)]
  {
    RegisterKeysNotScanned(id);
    assert PasswordKey(id) != UserKey by {
      assert |PasswordKey(id)| > |UserKey|;
    }
  }

  /** `updateUser(userData)`: `{ ...user, ...userData }`, where spreading
      `null` adds nothing. */
  function UpdateUser(state: State, update: UserData): (r: Outcome)
    ensures r.reply == Success
    ensures r.state.user.Some? && r.state.store == state.store[UserKey := Json(r.state.user.value)]
    ensures forall f :: f in r.state.user.value <==> f in update || (state.user.Some? && f in state.user.value)
    ensures forall f :: f in update ==> r.state.user.value[f] == update[f]
    ensures state.user.Some? ==> forall f :: f in state.user.value && f !in update ==> r.state.user.value[f] == state.user.value[f]
  {
    var base := match state.user case None => map[] case Some(u) => u;
    var merged := base + update;
    Outcome(Success, State(state.store[UserKey := Json(merged)], Some(merged)))
  }

  /** `loadUser()`: the user read back from the `user` key. A missing or
      empty value leaves no user; text that does not parse to a record is
      treated as no user (a parse error is caught). */
  function LoadUser(store: Store, parseRaw: string -> Parsed): (r: Option<UserData>)
    ensures UserKey !in store ==> r.None?
    ensures UserKey in store && store[UserKey].Json? ==> r == Some(store[UserKey].record)
    ensures r.Some? ==> UserKey in store && Parse(store[UserKey], parseRaw) == Record(r.value)
  {
    if UserKey !in store then None
    else match store[UserKey]
      case Json(d) => Some(d)
      case Raw(t) =>
        if t == "" then None
        else match parseRaw(t)
          case Record(d) => Some(d)
          case _ => None
  }

  /** The signed-in user is the one stored under `user`, and there is none
      exactly when the key is absent. */
  ghost predicate Persisted(state: State)
  {
    match state.user
    case None => UserKey !in state.store
    case Some(u) => UserKey in state.store && state.store[UserKey] == Json(u)
  }

  /** Every operation keeps the signed-in user and the stored one in step,
      so a reload (`loadUser`) restores the user of the session. */
  lemma SessionSurvivesReload(state: State, parseRaw: string -> Parsed, email: string, password: string,
                              id: string, createdAt: string, keys: seq<string>, update: UserData)
    requires Persisted(state)
    requires forall k :: k in keys <==> k in state.store
    ensures LoadUser(state.store, parseRaw) == state.user
    ensures Persisted(Register(state, email, password, id, createdAt).state)
    ensures Persisted(RegisterWithRecord(state, email, password, id, createdAt).state)
    ensures Persisted(Login(state, keys, email, password, parseRaw).state)
    ensures Persisted(Logout(state))
    ensures Persisted(UpdateUser(state, update).state)
  {
    assert PasswordKey(id) != UserKey by {
      assert |PasswordKey(id)| > |UserKey|;
    }
  }
}
