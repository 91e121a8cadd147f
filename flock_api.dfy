/**
 * The agent-facing API of the Flock server: registration, token
 * authentication and telemetry submission. The "user" index and the
 * telemetry indices of the document store are fields of `Server`; a search
 * by username and token is an exact comparison.
 */
module FlockApi {
  import opened Wrappers
  import opened JsonValue
  import opened Http
  import Decimal
  import UtcTime
  import Text

  /** A document of the "user" index. */
  datatype User = User(username: string, name: string, token: string)

  datatype ApiError =
    | MissingUsername
    | InvalidUsername
    | AlreadyRegistered(username: string)
    | InvalidJson
    | NotAnArray
    | NotAnObject(index: nat)
    | WrongHostIdentifier(index: nat)

  /** The `error_msg` of each 400 reply. */
  function ErrorMessage(e: ApiError): string {
    match e
    case MissingUsername => "You must provide a username"
    case InvalidUsername => "Usernames must only contain letters, numbers, '-', or '_'"
    case AlreadyRegistered(u) => "Your computer (" + u + ") is already registered with this server"
    case InvalidJson => "Invalid JSON object"
    case NotAnArray => "Data is not an array"
    case NotAnObject(i) => "Item " + Decimal.Show(i) + " is not an object"
    case WrongHostIdentifier(i) => "Item " + Decimal.Show(i) + " does not contain the correct hostIdentifier"
  }

  /** A duplicate registration is reported with a message that says so. */
  lemma DuplicateMessageSaysAlreadyRegistered(u: string)
    ensures Text.Contains(ErrorMessage(AlreadyRegistered(u)), "already registered")
  {
    var head := "Your computer (" + u + ") is ";
    var m := ErrorMessage(AlreadyRegistered(u));
    assert m == head + "already registered" + " with this server";
    assert Text.OccursAt(m, "already registered", |head|);
  }

  // ---------------------------------------------------------------- usernames

  /** A character of the username alphabet: an ASCII letter or digit, `_` or `-`. */
  predicate IsUsernameChar(c: char) {
    'a' <= c <= 'z' || 'A' <= c <= 'Z' || '0' <= c <= '9' || c == '_' || c == '-'
  }

  predicate ValidUsername(u: string) {
    forall i :: 0 <= i < |u| ==> IsUsernameChar(u[i])
  }

  /** A space or an apostrophe anywhere makes a username invalid. */
  lemma SpacesAndApostrophesRejected(u: string, i: nat)
    requires i < |u| && (u[i] == ' ' || u[i] == '\'')
    ensures !ValidUsername(u)
  {
  }

  /** The scan of the username, one character at a time. */
  method CheckUsername(username: string) returns (ok: bool)
    ensures ok <==> ValidUsername(username)
  {
    var i := 0;
    while i < |username|
      invariant 0 <= i <= |username|
      invariant forall j :: 0 <= j < i ==> IsUsernameChar(username[j])
    {
      if !IsUsernameChar(username[i]) {
        return false;
      }
      i := i + 1;
    }
    return true;
  }

  // ---------------------------------------------------------------- display names

  const NameBlacklist: string := "`{}!@#$%^&*_"

  /** The display name with every blacklisted character dropped. */
  function Stripped(name: string): string {
    if name == [] then []
    else if name[|name| - 1] in NameBlacklist then Stripped(name[..|name| - 1])
    else Stripped(name[..|name| - 1]) + [name[|name| - 1]]
  }

  /** `a` is `b` with some characters left out, the rest in their order. */
  predicate IsSubsequence(a: string, b: string)
    decreases |b|
  {
    if a == [] then true
    else if b == [] then false
    else (a[|a| - 1] == b[|b| - 1] && IsSubsequence(a[..|a| - 1], b[..|b| - 1]))
         || IsSubsequence(a, b[..|b| - 1])
  }

  /** The stripping loop, building the new name by appending. */
  method StripName(name: string) returns (newName: string)
    ensures newName == Stripped(name)
  {
    newName := "";
    var i := 0;
    while i < |name|
      invariant 0 <= i <= |name|
      invariant newName == Stripped(name[..i])
    {
      assert name[..i + 1][..i] == name[..i];
      if name[i] !in NameBlacklist {
        newName := newName + [name[i]];
      }
      i := i + 1;
    }
    assert name[..i] == name;
  }

  /** No blacklisted character survives. */
  lemma {:induction false} StrippedIsClean(name: string)
    ensures forall i :: 0 <= i < |Stripped(name)| ==> Stripped(name)[i] !in NameBlacklist
  {
    if name != [] {
      StrippedIsClean(name[..|name| - 1]);
    }
  }

  /** The stripped name is the input with characters left out, the rest in their order. */
  lemma {:induction false} StrippedIsSubsequence(name: string)
    ensures IsSubsequence(Stripped(name), name)
  {
    if name != [] {
      var init := name[..|name| - 1];
      var c := name[|name| - 1];
      StrippedIsSubsequence(init);
      var r := Stripped(name);
      if c !in NameBlacklist {
        assert r == Stripped(init) + [c];
        assert r[..|r| - 1] == Stripped(init);
        assert r[|r| - 1] == c;
      } else {
        assert r == Stripped(init);
        assert r != [] ==> IsSubsequence(r, name[..|name| - 1]);
      }
    }
  }

  /** Every character outside the blacklist is kept as often as it occurs. */
  lemma {:induction false} StrippedKeepsOthers(name: string, c: char)
    requires c !in NameBlacklist
    ensures multiset(Stripped(name))[c] == multiset(name)[c]
  {
    if name != [] {
      var init := name[..|name| - 1];
      StrippedKeepsOthers(init, c);
      assert name == init + [name[|name| - 1]];
    }
  }

  // ---------------------------------------------------------------- authentication

  /** How many user documents match both the username and the token. */
  function MatchCount(users: seq<User>, username: string, token: string): nat {
    if users == [] then 0
    else MatchCount(users[..|users| - 1], username, token)
         + (if users[|users| - 1].username == username && users[|users| - 1].token == token then 1 else 0)
  }

  predicate IsRegistered(users: seq<User>, username: string) {
    exists i :: 0 <= i < |users| && users[i].username == username
  }

  /** No two user documents share a username: what `register` maintains. */
  predicate UniqueUsernames(users: seq<User>) {
    forall i, j :: 0 <= i < j < |users| ==> users[i].username != users[j].username
  }

  lemma {:induction false} NoMatchesWhenUnregistered(users: seq<User>, username: string, token: string)
    requires !IsRegistered(users, username)
    ensures MatchCount(users, username, token) == 0
  {
    if users != [] {
      var init := users[..|users| - 1];
      assert !IsRegistered(init, username) by {
        forall i | 0 <= i < |init| ensures init[i].username != username {
          assert init[i] == users[i];
        }
      }
      NoMatchesWhenUnregistered(init, username, token);
    }
  }

  /**
   * With unique usernames, `check_auth` holds exactly when some user
   * document carries both the username and the token.
   */
  lemma {:induction false} CheckAuthIffStored(users: seq<User>, username: string, token: string)
    requires UniqueUsernames(users)
    ensures MatchCount(users, username, token) == 1
            <==> exists i :: 0 <= i < |users| && users[i].username == username && users[i].token == token
  {
    if users != [] {
      var init := users[..|users| - 1];
      var last := users[|users| - 1];
      assert UniqueUsernames(init) by {
        forall i, j | 0 <= i < j < |init| ensures init[i].username != init[j].username {
          assert init[i] == users[i] && init[j] == users[j];
        }
      }
      CheckAuthIffStored(init, username, token);
      if last.username == username {
        assert !IsRegistered(init, username) by {
          forall i | 0 <= i < |init| ensures init[i].username != username {
            assert init[i] == users[i];
          }
        }
        NoMatchesWhenUnregistered(init, username, token);
      }
      if exists i :: 0 <= i < |users| && users[i].username == username && users[i].token == token {
        var i :| 0 <= i < |users| && users[i].username == username && users[i].token == token;
        if i < |init| {
          assert init[i] == users[i];
        }
      }
      if exists i :: 0 <= i < |init| && init[i].username == username && init[i].token == token {
        var i :| 0 <= i < |init| && init[i].username == username && init[i].token == token;
        assert users[i] == init[i];
      }
    }
  }

  /**
   * After a new username is added with token `t`, that token authenticates
   * it and every other token fails.
   */
  lemma RegisteredTokenAuthenticates(users: seq<User>, username: string, name: string, t: string, other: string)
    requires !IsRegistered(users, username)
    ensures MatchCount(users + [User(username, name, t)], username, t) == 1
    ensures other != t ==> MatchCount(users + [User(username, name, t)], username, other) == 0
  {
    var after := users + [User(username, name, t)];
    assert after[..|after| - 1] == users;
    NoMatchesWhenUnregistered(users, username, t);
    NoMatchesWhenUnregistered(users, username, other);
  }

  /** Registering a new username keeps usernames unique. */
  lemma RegisterKeepsUnique(users: seq<User>, u: User)
    requires UniqueUsernames(users) && !IsRegistered(users, u.username)
    ensures UniqueUsernames(users + [u])
  {
  }

  // ---------------------------------------------------------------- submissions

  /** Python's `int()` of a decoded JSON value; `None` where it raises. */
  function IntOf(v: Json): Option<int> {
    match v
    case JInt(i) => Some(i)
    case JBool(b) => Some(if b then 1 else 0)
    case JStr(s) => Decimal.Parse(s)
    case _ => None
  }

  /**
   * The `@timestamp` for a `unixTime` value; `None` where `int()` or
   * `utcfromtimestamp` raises.
   */
  function TimestampOf(unixTime: Json): Option<string> {
    match IntOf(unixTime)
    case None => None
    case Some(t) =>
      match UtcTime.FromEpochSeconds(t)
      case None => None
      case Some(dt) => Some(UtcTime.Render(dt))
  }

  /** The document as archived: `@timestamp` added when it has a `unixTime`. */
  function Stamp(doc: map<string, Json>): Option<map<string, Json>> {
    if "unixTime" !in doc then Some(doc)
    else match TimestampOf(doc["unixTime"])
      case None => None
      case Some(ts) => Some(doc["@timestamp" := JStr(ts)])
  }

  /**
   * The archived document keeps every field but `@timestamp`, is the input
   * itself when there is no `unixTime`, and otherwise carries a timestamp
   * that reads back as the calendar time of `int(unixTime)`.
   */
  lemma StampMeaning(doc: map<string, Json>)
    requires Stamp(doc).Some?
    ensures var d := Stamp(doc).value;
      && (forall k :: k != "@timestamp" ==> (k in d <==> k in doc))
      && (forall k :: k != "@timestamp" && k in doc ==> d[k] == doc[k])
      && ("unixTime" !in doc ==> d == doc)
      && ("unixTime" in doc ==>
            && "@timestamp" in d && d["@timestamp"].JStr?
            && var dt := UtcTime.ParseRendered(d["@timestamp"].s);
            && dt.Some? && UtcTime.Valid(dt.value)
            && IntOf(doc["unixTime"]) == Some(UtcTime.EpochSeconds(dt.value)))
  {
    if "unixTime" in doc {
      var t := IntOf(doc["unixTime"]).value;
      var dt := UtcTime.FromEpochSeconds(t).value;
      UtcTime.ParseRender(dt);
    }
  }

  /** `int()` accepts exactly the integers `str()` writes. */
  lemma IntOfShownInteger(i: int)
    ensures IntOf(JStr(Decimal.Show(i))) == Some(i)
  {
    Decimal.ParseShow(i);
  }

  predicate AllStampable(docs: seq<map<string, Json>>) {
    forall i :: 0 <= i < |docs| ==> Stamp(docs[i]).Some?
  }

  /**
   * What the archive loop indexes: the stamped documents up to the first one
   * whose `unixTime` makes the loop raise.
   */
  function ArchivedDocs(docs: seq<map<string, Json>>): seq<map<string, Json>> {
    if docs == [] then []
    else match Stamp(docs[0])
      case None => []
      case Some(d) => [d] + ArchivedDocs(docs[1..])
  }

  lemma {:induction false} ArchivedDocsSplit(a: seq<map<string, Json>>, b: seq<map<string, Json>>)
    requires AllStampable(a)
    ensures ArchivedDocs(a + b) == ArchivedDocs(a) + ArchivedDocs(b)
  {
    if a != [] {
      assert (a + b)[0] == a[0] && (a + b)[1..] == a[1..] + b;
      assert AllStampable(a[1..]) by {
        forall i | 0 <= i < |a[1..]| ensures Stamp(a[1..][i]).Some? {
          assert a[1..][i] == a[i + 1];
        }
      }
      ArchivedDocsSplit(a[1..], b);
      var d := Stamp(a[0]).value;
      assert ArchivedDocs(a + b) == [d] + ArchivedDocs(a[1..] + b);
      assert ArchivedDocs(a) == [d] + ArchivedDocs(a[1..]);
      assert [d] + (ArchivedDocs(a[1..]) + ArchivedDocs(b)) == ([d] + ArchivedDocs(a[1..])) + ArchivedDocs(b);
    } else {
      assert a + b == b;
    }
  }

  /** When every document stamps, each is archived exactly once and in order. */
  lemma {:induction false} ArchivedDocsAll(docs: seq<map<string, Json>>)
    requires AllStampable(docs)
    ensures |ArchivedDocs(docs)| == |docs|
    ensures forall i :: 0 <= i < |docs| ==> ArchivedDocs(docs)[i] == Stamp(docs[i]).value
  {
    if docs != [] {
      ArchivedDocsAll(docs[1..]);
    }
  }

  /**
   * A document at index `k` whose `unixTime` cannot be converted stops the
   * loop: exactly the `k` documents before it are archived.
   */
  lemma ArchivedDocsStopAtFailure(docs: seq<map<string, Json>>, k: nat)
    requires k < |docs| && Stamp(docs[k]).None? && AllStampable(docs[..k])
    ensures ArchivedDocs(docs) == ArchivedDocs(docs[..k])
    ensures |ArchivedDocs(docs)| == k
  {
    assert docs == docs[..k] + docs[k..];
    ArchivedDocsSplit(docs[..k], docs[k..]);
    ArchivedDocsAll(docs[..k]);
  }

  /** The item check of the validation loop. */
  predicate ItemOk(username: string, doc: Json) {
    doc.JObj? && "hostIdentifier" in doc.fields && doc.fields["hostIdentifier"] == JStr(username)
  }

  predicate AllItemsOk(username: string, docs: seq<Json>) {
    forall i :: 0 <= i < |docs| ==> ItemOk(username, docs[i])
  }

  /** `e` reports the first failing item, with the error its kind of failure gets. */
  predicate IsFirstBadItem(username: string, docs: seq<Json>, e: ApiError) {
    && (e.NotAnObject? || e.WrongHostIdentifier?)
    && e.index < |docs|
    && !ItemOk(username, docs[e.index])
    && (e.NotAnObject? <==> !docs[e.index].JObj?)
    && forall j :: 0 <= j < e.index ==> ItemOk(username, docs[j])
  }

  /** The validation loop: it runs over the whole batch before anything is archived. */
  method ValidateBatch(username: string, docs: seq<Json>) returns (err: Option<ApiError>)
    ensures err.None? <==> AllItemsOk(username, docs)
    ensures err.Some? ==> IsFirstBadItem(username, docs, err.value)
  {
    var i := 0;
    while i < |docs|
      invariant 0 <= i <= |docs|
      invariant forall j :: 0 <= j < i ==> ItemOk(username, docs[j])
    {
      var doc := docs[i];
      if !doc.JObj? {
        return Some(NotAnObject(i));
      }
      if "hostIdentifier" !in doc.fields || doc.fields["hostIdentifier"] != JStr(username) {
        return Some(WrongHostIdentifier(i));
      }
      i := i + 1;
    }
    return None;
  }

  function Objects(docs: seq<Json>): (r: seq<map<string, Json>>)
    requires forall i :: 0 <= i < |docs| ==> docs[i].JObj?
    ensures |r| == |docs| && forall i :: 0 <= i < |docs| ==> JObj(r[i]) == docs[i]
  {
    seq(|docs|, i requires 0 <= i < |docs| => docs[i].fields)
  }

  /** A document naming `host` as its sender, as the API tests build them. */
  function HostDoc(host: string): (r: Json)
    ensures ItemOk(host, r) && Stamp(r.fields) == Some(r.fields)
  {
    JObj(map["hostIdentifier" := JStr(host)])
  }

  /** An empty index with `host` registered under `token`, the set-up of the API tests. */
  method RegisteredHost(host: string, token: string) returns (server: Server)
    requires host != "" && ValidUsername(host)
    ensures fresh(server) && server.Admits(Some(Credentials(host, token)))
  {
    server := new Server([]);
    var registered := server.Register(Some(host), None, token);
  }

  /**
   * The batch scenario of the API tests, for any valid host name and any
   * other host name: a registered host submits a bare object instead of an
   * array, a single item, a batch whose second item names the other host,
   * and three good items.
   */
  method SubmitListScenario(host: string, stranger: string, token: string)
    returns (bare: Response<nat, ApiError>, one: Response<nat, ApiError>,
             mixed: Response<nat, ApiError>, three: Response<nat, ApiError>)
    requires host != "" && ValidUsername(host) && stranger != host
    ensures bare == BadRequest(NotAnArray)
    ensures one == Ok(1)
    ensures mixed == BadRequest(WrongHostIdentifier(1))
    ensures three == Ok(3)
  {
    var server := RegisteredHost(host, token);
    var auth := Some(Credentials(host, token));
    var mine := HostDoc(host);
    var other := HostDoc(stranger);
    bare := server.Submit(auth, Decoded(mine));
    assert Objects([mine]) == [mine.fields];
    one := server.Submit(auth, Decoded(JArr([mine])));
    assert !AllItemsOk(host, [mine, other, mine]) by {
      assert [mine, other, mine][1] == other;
    }
    mixed := server.Submit(auth, Decoded(JArr([mine, other, mine])));
    assert Objects([mine, mine, mine]) == [mine.fields, mine.fields, mine.fields];
    three := server.Submit(auth, Decoded(JArr([mine, mine, mine])));
  }

  class Server {
    /** The "user" index. */
    var users: seq<User>
    /** Every telemetry document indexed so far, across the daily indices. */
    var archive: seq<map<string, Json>>

    constructor (users: seq<User>)
      ensures this.users == users && archive == []
    {
      this.users := users;
      archive := [];
    }

    /** `check_auth`: exactly one user document matches both fields. */
    predicate CheckAuth(username: string, token: string)
      reads this`users
    {
      MatchCount(users, username, token) == 1
    }

    /** The test `requires_auth` applies before running a route. */
    predicate Admits(auth: Option<Credentials>)
      reads this`users
    {
      auth.Some? && CheckAuth(auth.value.username, auth.value.password)
    }

    /** `POST /register`; `token` stands for the random `secrets.token_hex(16)`. */
    method Register(username: Option<string>, name: Option<string>, token: string)
      returns (r: Response<string, ApiError>)
      modifies this`users
      ensures username.None? || username.value == "" ==> r == BadRequest(MissingUsername)
      ensures username.Some? && username.value != "" && !ValidUsername(username.value)
              ==> r == BadRequest(InvalidUsername)
      ensures username.Some? && username.value != "" && ValidUsername(username.value)
              && IsRegistered(old(users), username.value)
              ==> r == BadRequest(AlreadyRegistered(username.value))
      ensures r.Ok? <==> username.Some? && username.value != "" && ValidUsername(username.value)
                         && !IsRegistered(old(users), username.value)
      ensures r.Ok? ==> r.value == token
                        && users == old(users) + [User(username.value, Stripped(name.GetOr("")), token)]
                        && CheckAuth(username.value, token)
      ensures !r.Ok? ==> users == old(users)
      ensures UniqueUsernames(old(users)) ==> UniqueUsernames(users)
    {
      if username.None? || username.value == "" {
        return BadRequest(MissingUsername);
      }
      var u := username.value;
      var ok := CheckUsername(u);
      if !ok {
        return BadRequest(InvalidUsername);
      }
      var newName := StripName(name.GetOr(""));
      if exists i :: 0 <= i < |users| && users[i].username == u {
        return BadRequest(AlreadyRegistered(u));
      }
      RegisteredTokenAuthenticates(users, u, newName, token, token);
      if UniqueUsernames(users) {
        RegisterKeepsUnique(users, User(u, newName, token));
      }
      users := users + [User(u, newName, token)];
      return Ok(token);
    }

    /** `GET /ping`. */
    method Ping(auth: Option<Credentials>) returns (r: Response<(), ApiError>)
      ensures r.Unauthorized? <==> !Admits(auth)
      ensures Admits(auth) ==> r == Ok(())
    {
      if !Admits(auth) {
        return Unauthorized;
      }
      return Ok(());
    }

    /** The archive loop; `ok` is false when a document made it raise. */
    method ArchiveBatch(docs: seq<map<string, Json>>) returns (ok: bool)
      modifies this`archive
      ensures ok <==> AllStampable(docs)
      ensures archive == old(archive) + ArchivedDocs(docs)
    {
      var i := 0;
      while i < |docs|
        invariant 0 <= i <= |docs|
        invariant AllStampable(docs[..i])
        invariant archive == old(archive) + ArchivedDocs(docs[..i])
      {
        var stamped := Stamp(docs[i]);
        if stamped.None? {
          ArchivedDocsStopAtFailure(docs, i);
          return false;
        }
        assert docs[..i + 1] == docs[..i] + [docs[i]];
        ArchivedDocsSplit(docs[..i], [docs[i]]);
        archive := archive + [stamped.value];
        i := i + 1;
      }
      assert docs[..i] == docs;
      return true;
    }

    /**
     * `POST /submit`. A batch that fails validation archives nothing; a
     * validated batch is archived document by document, and a `unixTime`
     * that `int()` or `utcfromtimestamp` rejects ends the route with an
     * exception after the earlier documents were archived.
     */
    method Submit(auth: Option<Credentials>, body: Body) returns (r: Response<nat, ApiError>)
      modifies this`archive
      ensures !Admits(auth) ==> r == Unauthorized && archive == old(archive)
      ensures Admits(auth) && body.Malformed? ==> r == BadRequest(InvalidJson) && archive == old(archive)
      ensures Admits(auth) && body.Decoded? && !body.value.JArr?
              ==> r == BadRequest(NotAnArray) && archive == old(archive)
      ensures Admits(auth) && body.Decoded? && body.value.JArr?
              && !AllItemsOk(auth.value.username, body.value.items)
              ==> r.BadRequest? && IsFirstBadItem(auth.value.username, body.value.items, r.error)
                  && archive == old(archive)
      ensures Admits(auth) && body.Decoded? && body.value.JArr?
              && AllItemsOk(auth.value.username, body.value.items)
              ==> var docs := Objects(body.value.items);
                  && archive == old(archive) + ArchivedDocs(docs)
                  && r == (if AllStampable(docs) then Ok(|docs|) else ServerError)
    {
      if !Admits(auth) {
        return Unauthorized;
      }
      if body.Malformed? {
        return BadRequest(InvalidJson);
      }
      if !body.value.JArr? {
        return BadRequest(NotAnArray);
      }
      var items := body.value.items;
      var err := ValidateBatch(auth.value.username, items);
      if err.Some? {
        return BadRequest(err.value);
      }
      var ok := ArchiveBatch(Objects(items));
      if !ok {
        return ServerError;
      }
      return Ok(|items|);
    }
  }
}
