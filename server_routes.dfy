/**
 * The REST handlers that `registerRoutes` installs. Each handler first runs
 * its access check on the session's user (`Guard`, a pure decision), then
 * parses the body, then calls the repository. A parse failure or a storage
 * error that the handler does not catch escapes it (`Unhandled`).
 */
module ServerRoutes {
  import opened Wrappers
  import opened Tables
  import opened Schema
  import opened Storage

  /** The logged-in user of a request (`req.user`): its id and role. */
  datatype Principal = Principal(id: int, role: Role)

  /** The routes the server registers; `pathId` is the parsed `:id` of the path. */
  datatype Endpoint =
    | ListUsers | CreateUser | UpdateUser(pathId: int) | DeleteUser
    | ListMessages | CreateMessage | DeleteMessage
    | ListPages | CreatePage
    | ListEvents | CreateEvent | LikeEvent
    | ListPkBattles | CreatePkBattle
    | ListAnnouncements | CreateAnnouncement
    | GetSetting | SetSetting

  /** What the access check decides before the handler does anything else. */
  datatype Gate = Unauthenticated | Forbidden | Proceed

  /** The endpoints whose check is `!req.isAuthenticated() || req.user?.role !== "admin"`. */
  predicate AdminOnly(ep: Endpoint)
  {
    ep.CreateUser? || ep.DeleteUser? || ep.CreatePage? || ep.CreateEvent?
    || ep.CreatePkBattle? || ep.CreateAnnouncement? || ep.SetSetting?
  }

  /** The endpoints whose only check is `!req.isAuthenticated()`. */
  predicate SessionOnly(ep: Endpoint)
  {
    ep.ListUsers? || ep.ListMessages? || ep.CreateMessage? || ep.DeleteMessage?
    || ep.ListPages? || ep.ListEvents? || ep.LikeEvent? || ep.ListPkBattles? || ep.ListAnnouncements?
  }

  /**
   * The access check of each handler, as written in it. Only a request
   * without a session is ever unauthenticated, and the admin-only endpoints
   * never answer 401; apart from reading a setting, nothing proceeds without a
   * session, and nothing admin-only proceeds for anyone but an admin.
   */
  function Guard(who: Option<Principal>, ep: Endpoint): (r: Gate)
    ensures r == Unauthenticated ==> who.None? && !AdminOnly(ep)
    ensures r == Proceed && !ep.GetSetting? ==> who.Some?
    ensures r == Proceed && AdminOnly(ep) ==> who.Some? && who.value.role == Admin
  {
    if AdminOnly(ep) then
      if who.None? || who.value.role != Admin then Forbidden else Proceed
    else if ep.UpdateUser? then
      if who.None? then Unauthenticated
      else if who.value.role != Admin && who.value.id != ep.pathId then Forbidden
      else Proceed
    else if ep.GetSetting? then Proceed
    else if who.None? then Unauthenticated
    else Proceed
  }

  /** The status a refused request gets. */
  function GateStatus(g: Gate): int
    requires g != Proceed
  {
    if g == Unauthenticated then 401 else 403
  }

  /** An admin-only endpoint lets exactly admins through and answers 403 to everyone else, anonymous callers included. */
  lemma AdminOnlyGate(who: Option<Principal>, ep: Endpoint)
    requires AdminOnly(ep)
    ensures Guard(who, ep) == Proceed <==> who.Some? && who.value.role == Admin
    ensures Guard(who, ep) != Proceed ==> Guard(who, ep) == Forbidden
  {
  }

  /** A session-only endpoint answers 401 to anonymous callers and lets every logged-in user through, whatever the role. */
  lemma SessionOnlyGate(who: Option<Principal>, ep: Endpoint)
    requires SessionOnly(ep)
    ensures Guard(who, ep) == Unauthenticated <==> who.None?
    ensures who.Some? ==> Guard(who, ep) == Proceed
  {
  }

  /** PATCH /api/users/:id: anonymous 401, a non-admin on another user's id 403, an admin or the user themself proceeds. */
  lemma PatchUserGate(who: Option<Principal>, id: int)
    ensures who.None? ==> Guard(who, UpdateUser(id)) == Unauthenticated
    ensures who.Some? ==>
      (Guard(who, UpdateUser(id)) == Proceed <==> who.value.role == Admin || who.value.id == id)
    ensures who.Some? && who.value.role != Admin && who.value.id != id ==> Guard(who, UpdateUser(id)) == Forbidden
  {
  }

  /** Reading a setting needs no session. */
  lemma SettingsReadIsPublic(who: Option<Principal>)
    ensures Guard(who, GetSetting) == Proceed
  {
  }

  /**
   * A user with the plain role passes the check on their own id and may then
   * set any field of their row, the role included: the patch makes them admin.
   */
  lemma SelfPromotion(u: User, patch: UserPatch)
    requires u.role == Member && patch.role == Set(Admin)
    ensures Guard(Some(Principal(u.id, u.role)), UpdateUser(u.id)) == Proceed
    ensures ApplyUserPatch(u, patch).role == Admin && ApplyUserPatch(u, patch).id == u.id
  {
  }

  // === Requests and responses ===

  /** What the body's schema parse yields: the typed value, or a rejection (zod's throw). */
  datatype Input<T> = Parsed(value: T) | Invalid

  /** Why a 400 was sent. */
  datatype Failure = Validation | StorageFailed(error: StorageError)

  /** A JSON body, or none. */
  datatype Payload =
    | Empty
    | UserJson(user: User)
    | UsersJson(users: seq<User>)
    | MessageJson(message: Message)
    | MessagesJson(messages: seq<Message>)
    | PageJson(page: Page)
    | PagesJson(pages: seq<Page>)
    | EventJson(event: Event)
    | EventsJson(events: seq<Event>)
    | PkBattleJson(battle: PkBattle)
    | PkBattlesJson(battles: seq<PkBattle>)
    | AnnouncementJson(announcement: Announcement)
    | AnnouncementsJson(announcements: seq<Announcement>)
    | ValueJson(value: string)
    | KeyValueJson(key: string, value: string)
    | ErrorJson(failure: Failure)

  /** A response sent by the handler, or an error that escaped it. */
  datatype Response = Reply(status: int, payload: Payload) | Unhandled

  // === Users ===

  /** GET /api/users */
  method HandleListUsers(db: DatabaseStorage, who: Option<Principal>) returns (resp: Response)
    ensures who.None? ==> resp == Reply(401, Empty)
    ensures who.Some? ==> resp == Reply(200, UsersJson(db.users))
  {
    if Guard(who, ListUsers) != Proceed {
      return Reply(GateStatus(Guard(who, ListUsers)), Empty);
    }
    var users := db.GetAllUsers();
    resp := Reply(200, UsersJson(users));
  }

  /** POST /api/users: admin only; a rejected body or a taken username is a 400. */
  method HandleCreateUser(db: DatabaseStorage, who: Option<Principal>, body: Input<InsertUser>) returns (resp: Response)
    requires db.Valid()
    modifies db`users, db`nextUserId
    ensures db.Valid()
    ensures Guard(who, CreateUser) != Proceed ==> resp == Reply(403, Empty) && unchanged(db)
    ensures Guard(who, CreateUser) == Proceed && body.Invalid? ==>
      resp == Reply(400, ErrorJson(Validation)) && unchanged(db)
    ensures Guard(who, CreateUser) == Proceed && body.Parsed? ==>
      var row := NewUser(old(db.nextUserId), body.value);
      if UsernameFree(old(db.users), body.value.username)
      then resp == Reply(201, UserJson(row)) && db.users == old(db.users) + [row]
      else resp == Reply(400, ErrorJson(StorageFailed(UniqueViolation("username")))) && db.users == old(db.users)
  {
    if Guard(who, CreateUser) != Proceed {
      return Reply(403, Empty);
    }
    if body.Invalid? {
      return Reply(400, ErrorJson(Validation));
    }
    var r := db.CreateUser(body.value);
    match r
    case Ok(user) => resp := Reply(201, UserJson(user));
    case Err(e) => resp := Reply(400, ErrorJson(StorageFailed(e)));
  }

  /**
   * PATCH /api/users/:id: an admin, or the user on their own id, applies any
   * partial patch, the role included; a rejected body, a patch that sets no
   * field or a taken username is a 400, and an id with no row answers 200 with
   * no body.
   */
  method HandleUpdateUser(db: DatabaseStorage, who: Option<Principal>, id: int, body: Input<UserPatch>)
    returns (resp: Response)
    requires db.Valid()
    modifies db`users
    ensures db.Valid()
    ensures Guard(who, UpdateUser(id)) != Proceed ==>
      resp == Reply(GateStatus(Guard(who, UpdateUser(id))), Empty) && unchanged(db)
    ensures Guard(who, UpdateUser(id)) == Proceed && body.Invalid? ==>
      resp == Reply(400, ErrorJson(Validation)) && unchanged(db)
    ensures Guard(who, UpdateUser(id)) == Proceed && body == Parsed(EmptyUserPatch) ==>
      resp == Reply(400, ErrorJson(StorageFailed(EmptyUpdate))) && db.users == old(db.users)
    ensures Guard(who, UpdateUser(id)) == Proceed && body.Parsed? && body.value != EmptyUserPatch ==>
      var k := IndexOfKey(old(db.users), UserKey, id);
      if k == |old(db.users)| then resp == Reply(200, Empty) && db.users == old(db.users)
      else
        var row := ApplyUserPatch(old(db.users)[k], body.value);
        if forall i :: 0 <= i < |old(db.users)| && i != k ==> old(db.users)[i].username != row.username
        then resp == Reply(200, UserJson(row)) && db.users == old(db.users)[k := row]
        else resp == Reply(400, ErrorJson(StorageFailed(UniqueViolation("username")))) && db.users == old(db.users)
  {
    var gate := Guard(who, UpdateUser(id));
    if gate != Proceed {
      return Reply(GateStatus(gate), Empty);
    }
    if body.Invalid? {
      return Reply(400, ErrorJson(Validation));
    }
    var r := db.UpdateUser(id, body.value);
    match r
    case Ok(found) => resp := if found.Some? then Reply(200, UserJson(found.value)) else Reply(200, Empty);
    case Err(e) => resp := Reply(400, ErrorJson(StorageFailed(e)));
  }

  /** DELETE /api/users/:id: admin only; deleting a user who still has messages throws out of the handler. */
  method HandleDeleteUser(db: DatabaseStorage, who: Option<Principal>, id: int) returns (resp: Response)
    requires db.Valid()
    modifies db`users
    ensures db.Valid()
    ensures Guard(who, DeleteUser) != Proceed ==> resp == Reply(403, Empty) && unchanged(db)
    ensures Guard(who, DeleteUser) == Proceed ==>
      if NoMessagesBy(db.messages, id)
      then resp == Reply(204, Empty) && db.users == Without(old(db.users), UserKey, id)
      else resp == Unhandled && db.users == old(db.users)
  {
    if Guard(who, DeleteUser) != Proceed {
      return Reply(403, Empty);
    }
    var r := db.DeleteUser(id);
    resp := if r.Ok? then Reply(204, Empty) else Unhandled;
  }

  // === Messages ===

  /** GET /api/messages: every message, newest first. */
  method HandleListMessages(db: DatabaseStorage, who: Option<Principal>) returns (resp: Response)
    ensures who.None? ==> resp == Reply(401, Empty)
    ensures who.Some? ==>
      (resp.Reply? && resp.status == 200 && resp.payload.MessagesJson?
       && SortedDesc(resp.payload.messages, MessageTime)
       && multiset(resp.payload.messages) == multiset(db.messages))
  {
    if Guard(who, ListMessages) != Proceed {
      return Reply(GateStatus(Guard(who, ListMessages)), Empty);
    }
    var messages := db.GetMessages();
    resp := Reply(200, MessagesJson(messages));
  }

  /**
   * POST /api/messages: the author is the session's user, never the body; the
   * reply target is stored as given, without checking that it exists.
   */
  method HandleCreateMessage(db: DatabaseStorage, who: Option<Principal>, body: Input<CreateMessageRequest>, now: int)
    returns (resp: Response)
    requires db.Valid()
    modifies db`messages, db`nextMessageId
    ensures db.Valid()
    ensures who.None? ==> resp == Reply(401, Empty) && unchanged(db)
    ensures who.Some? && body.Invalid? ==> resp == Unhandled && unchanged(db)
    ensures who.Some? && body.Parsed? ==>
      var row := Message(old(db.nextMessageId), who.value.id, body.value.content, body.value.replyToId, now, false);
      if HasKey(db.users, UserKey, who.value.id)
      then resp == Reply(201, MessageJson(row)) && db.messages == old(db.messages) + [row]
      else resp == Unhandled && db.messages == old(db.messages)
  {
    if Guard(who, CreateMessage) != Proceed {
      return Reply(GateStatus(Guard(who, CreateMessage)), Empty);
    }
    if body.Invalid? {
      return Unhandled;
    }
    var r := db.CreateMessage(InsertMessage(who.value.id, body.value.content, body.value.replyToId), now);
    resp := if r.Ok? then Reply(201, MessageJson(r.value)) else Unhandled;
  }

  /**
   * DELETE /api/messages/:id: any logged-in user deletes any message, whoever
   * wrote it and however old it is, and gets 204 even when there was none.
   */
  method HandleDeleteMessage(db: DatabaseStorage, who: Option<Principal>, id: int) returns (resp: Response)
    requires db.Valid()
    modifies db`messages
    ensures db.Valid()
    ensures who.None? ==> resp == Reply(401, Empty) && unchanged(db)
    ensures who.Some? ==> resp == Reply(204, Empty) && db.messages == Without(old(db.messages), MessageKey, id)
  {
    if Guard(who, DeleteMessage) != Proceed {
      return Reply(GateStatus(Guard(who, DeleteMessage)), Empty);
    }
    db.DeleteMessage(id);
    resp := Reply(204, Empty);
  }

  // === Pages ===

  /** GET /api/pages: every page, hidden ones included. */
  method HandleListPages(db: DatabaseStorage, who: Option<Principal>) returns (resp: Response)
    ensures who.None? ==> resp == Reply(401, Empty)
    ensures who.Some? ==> resp == Reply(200, PagesJson(db.pages))
  {
    if Guard(who, ListPages) != Proceed {
      return Reply(GateStatus(Guard(who, ListPages)), Empty);
    }
    var pages := db.GetPages();
    resp := Reply(200, PagesJson(pages));
  }

  /** POST /api/pages: admin only; a rejected body or a taken slug throws out of the handler. */
  method HandleCreatePage(db: DatabaseStorage, who: Option<Principal>, body: Input<InsertPage>) returns (resp: Response)
    requires db.Valid()
    modifies db`pages, db`nextPageId
    ensures db.Valid()
    ensures Guard(who, CreatePage) != Proceed ==> resp == Reply(403, Empty) && unchanged(db)
    ensures Guard(who, CreatePage) == Proceed && body.Invalid? ==> resp == Unhandled && unchanged(db)
    ensures Guard(who, CreatePage) == Proceed && body.Parsed? ==>
      var row := NewPage(old(db.nextPageId), body.value);
      if SlugFree(old(db.pages), body.value.slug)
      then resp == Reply(201, PageJson(row)) && db.pages == old(db.pages) + [row]
      else resp == Unhandled && db.pages == old(db.pages)
  {
    if Guard(who, CreatePage) != Proceed {
      return Reply(403, Empty);
    }
    if body.Invalid? {
      return Unhandled;
    }
    var r := db.CreatePage(body.value);
    resp := if r.Ok? then Reply(201, PageJson(r.value)) else Unhandled;
  }

  // === Events ===

  /** GET /api/events: every event, latest date first. */
  method HandleListEvents(db: DatabaseStorage, who: Option<Principal>) returns (resp: Response)
    ensures who.None? ==> resp == Reply(401, Empty)
    ensures who.Some? ==>
      (resp.Reply? && resp.status == 200 && resp.payload.EventsJson?
       && SortedDesc(resp.payload.events, EventDate)
       && multiset(resp.payload.events) == multiset(db.events))
  {
    if Guard(who, ListEvents) != Proceed {
      return Reply(GateStatus(Guard(who, ListEvents)), Empty);
    }
    var events := db.GetEvents();
    resp := Reply(200, EventsJson(events));
  }

  /** POST /api/events: admin only; the new event has no likes; a rejected body throws out of the handler. */
  method HandleCreateEvent(db: DatabaseStorage, who: Option<Principal>, body: Input<InsertEvent>) returns (resp: Response)
    requires db.Valid()
    modifies db`events, db`nextEventId
    ensures db.Valid()
    ensures Guard(who, CreateEvent) != Proceed ==> resp == Reply(403, Empty) && unchanged(db)
    ensures Guard(who, CreateEvent) == Proceed && body.Invalid? ==> resp == Unhandled && unchanged(db)
    ensures Guard(who, CreateEvent) == Proceed && body.Parsed? ==>
      var row := NewEvent(old(db.nextEventId), body.value);
      resp == Reply(201, EventJson(row)) && db.events == old(db.events) + [row]
      && row.likes == Some(0) && row.likedBy == Some([])
  {
    if Guard(who, CreateEvent) != Proceed {
      return Reply(403, Empty);
    }
    if body.Invalid? {
      return Unhandled;
    }
    var e := db.CreateEvent(body.value);
    resp := Reply(201, EventJson(e));
  }

  /**
   * POST /api/events/:id/like: the liker is the session's user; a missing
   * event throws out of the handler.
   */
  method HandleLikeEvent(db: DatabaseStorage, who: Option<Principal>, id: int) returns (resp: Response)
    requires db.Valid()
    modifies db`events
    ensures db.Valid()
    ensures who.None? ==> resp == Reply(401, Empty) && unchanged(db)
    ensures who.Some? ==>
      var k := IndexOfKey(old(db.events), EventKey, id);
      if k == |old(db.events)| then resp == Unhandled && db.events == old(db.events)
      else
        var liked := Like(old(db.events)[k], who.value.id);
        resp == Reply(200, EventJson(liked)) && db.events == old(db.events)[k := liked]
  {
    if Guard(who, LikeEvent) != Proceed {
      return Reply(GateStatus(Guard(who, LikeEvent)), Empty);
    }
    var r := db.LikeEvent(id, who.value.id);
    resp := if r.Ok? then Reply(200, EventJson(r.value)) else Unhandled;
  }

  // === PK battles ===

  /** GET /api/pk-battles */
  method HandleListPkBattles(db: DatabaseStorage, who: Option<Principal>) returns (resp: Response)
    ensures who.None? ==> resp == Reply(401, Empty)
    ensures who.Some? ==> resp == Reply(200, PkBattlesJson(db.pkBattles))
  {
    if Guard(who, ListPkBattles) != Proceed {
      return Reply(GateStatus(Guard(who, ListPkBattles)), Empty);
    }
    var battles := db.GetPkBattles();
    resp := Reply(200, PkBattlesJson(battles));
  }

  /** POST /api/pk-battles: admin only; a rejected body throws out of the handler. */
  method HandleCreatePkBattle(db: DatabaseStorage, who: Option<Principal>, body: Input<InsertPkBattle>)
    returns (resp: Response)
    requires db.Valid()
    modifies db`pkBattles, db`nextPkBattleId
    ensures db.Valid()
    ensures Guard(who, CreatePkBattle) != Proceed ==> resp == Reply(403, Empty) && unchanged(db)
    ensures Guard(who, CreatePkBattle) == Proceed && body.Invalid? ==> resp == Unhandled && unchanged(db)
    ensures Guard(who, CreatePkBattle) == Proceed && body.Parsed? ==>
      var row := NewPkBattle(old(db.nextPkBattleId), body.value);
      resp == Reply(201, PkBattleJson(row)) && db.pkBattles == old(db.pkBattles) + [row]
  {
    if Guard(who, CreatePkBattle) != Proceed {
      return Reply(403, Empty);
    }
    if body.Invalid? {
      return Unhandled;
    }
    var b := db.CreatePkBattle(body.value);
    resp := Reply(201, PkBattleJson(b));
  }

  // === Announcements ===

  /** GET /api/announcements: the active announcements only. */
  method HandleListAnnouncements(db: DatabaseStorage, who: Option<Principal>) returns (resp: Response)
    ensures who.None? ==> resp == Reply(401, Empty)
    ensures who.Some? ==> resp == Reply(200, AnnouncementsJson(Filter(db.announcements, IsActive)))
  {
    if Guard(who, ListAnnouncements) != Proceed {
      return Reply(GateStatus(Guard(who, ListAnnouncements)), Empty);
    }
    var announcements := db.GetAnnouncements();
    resp := Reply(200, AnnouncementsJson(announcements));
  }

  /** POST /api/announcements: admin only; a rejected body throws out of the handler. */
  method HandleCreateAnnouncement(db: DatabaseStorage, who: Option<Principal>, body: Input<InsertAnnouncement>)
    returns (resp: Response)
    requires db.Valid()
    modifies db`announcements, db`nextAnnouncementId
    ensures db.Valid()
    ensures Guard(who, CreateAnnouncement) != Proceed ==> resp == Reply(403, Empty) && unchanged(db)
    ensures Guard(who, CreateAnnouncement) == Proceed && body.Invalid? ==> resp == Unhandled && unchanged(db)
    ensures Guard(who, CreateAnnouncement) == Proceed && body.Parsed? ==>
      var row := NewAnnouncement(old(db.nextAnnouncementId), body.value);
      resp == Reply(201, AnnouncementJson(row)) && db.announcements == old(db.announcements) + [row]
  {
    if Guard(who, CreateAnnouncement) != Proceed {
      return Reply(403, Empty);
    }
    if body.Invalid? {
      return Unhandled;
    }
    var a := db.CreateAnnouncement(body.value);
    resp := Reply(201, AnnouncementJson(a));
  }

  // === Settings ===

  /** GET /api/settings/:key: no session needed; 404 when nothing is stored under the key. */
  method HandleGetSetting(db: DatabaseStorage, key: string) returns (resp: Response)
    ensures key !in db.settings ==> resp == Reply(404, Empty)
    ensures key in db.settings ==> resp == Reply(200, ValueJson(db.settings[key]))
  {
    var value := db.GetSetting(key);
    if value.None? {
      return Reply(404, Empty);
    }
    resp := Reply(200, ValueJson(value.value));
  }

  /** POST /api/settings: admin only; stores the value under the key and echoes both. */
  method HandleSetSetting(db: DatabaseStorage, who: Option<Principal>, body: Input<(string, string)>)
    returns (resp: Response)
    modifies db`settings
    ensures Guard(who, SetSetting) != Proceed ==> resp == Reply(403, Empty) && unchanged(db)
    ensures Guard(who, SetSetting) == Proceed && body.Invalid? ==> resp == Unhandled && unchanged(db)
    ensures Guard(who, SetSetting) == Proceed && body.Parsed? ==>
      var (key, value) := body.value;
      resp == Reply(200, KeyValueJson(key, value)) && db.settings == old(db.settings)[key := value]
  {
    if Guard(who, SetSetting) != Proceed {
      return Reply(403, Empty);
    }
    if body.Invalid? {
      return Unhandled;
    }
    var (key, value) := body.value;
    db.SetSetting(key, value);
    resp := Reply(200, KeyValueJson(key, value));
  }

  // === Start-up ===

  /** The account created on first start; its password is the hash of the default password. */
  function AdminSeed(hashedPassword: string): InsertUser
  {
    InsertUser("admin", hashedPassword, Some(Admin), Some("Super Admin"), Some("OWNER"), Some("gold"),
               Some("https://api.dicebear.com/7.x/avataaars/svg?seed=admin"), Some(false))
  }

  /**
   * Creates the admin account when, and only when, there are no users at
   * all. The password hash is computed outside the model and passed in.
   */
  method SeedAdmin(db: DatabaseStorage, hashedPassword: string)
    requires db.Valid()
    modifies db`users, db`nextUserId
    ensures db.Valid()
    ensures old(db.users) == [] ==>
      db.users == [NewUser(old(db.nextUserId), AdminSeed(hashedPassword))]
      && db.users[0].role == Admin && db.users[0].username == "admin"
    ensures old(db.users) != [] ==> unchanged(db)
  {
    var existing := db.GetAllUsers();
    if |existing| == 0 {
      var r := db.CreateUser(AdminSeed(hashedPassword));
    }
  }
}
