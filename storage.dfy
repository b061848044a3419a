/**
 * The repository behind the REST server: `DatabaseStorage`, one table per
 * entity, each a sequence of rows in stored order, plus the settings map.
 * Each method does what its query does to the tables; the `unique()`
 * columns, the foreign key from messages to users and the serial id
 * sequences are checked as the database would check them.
 */
module Storage {
  import opened Wrappers
  import opened Tables
  import opened Schema

  /** Why a storage call throws. */
  datatype StorageError =
    | UniqueViolation(column: string)   // a `unique()` column would hold a value twice
    | ForeignKeyViolation               // a message would reference a user that is not there
    | NotFound(message: string)         // likeEvent's own error
    | EmptyUpdate                       // an `UPDATE` whose `set` has no column: the query builder throws

  // === Likes ===

  /** `event.likes || 0`: a null count reads as 0. */
  function LikesOf(e: Event): int
  {
    if e.likes.Some? then e.likes.value else 0
  }

  /** `event.likedBy || []`: a null list reads as empty. */
  function LikedByOf(e: Event): seq<int>
  {
    if e.likedBy.Some? then e.likedBy.value else []
  }

  /**
   * What one like by `userId` makes of the stored event: nothing when the
   * user is already listed, otherwise one more like and the user appended.
   */
  function Like(e: Event, userId: int): (r: Event)
    ensures userId in LikedByOf(r)
    ensures r.id == e.id && r.title == e.title && r.description == e.description
    ensures r.imageUrl == e.imageUrl && r.date == e.date
  {
    var likedBy := LikedByOf(e);
    if userId in likedBy then e
    else e.(likes := Some(LikesOf(e) + 1), likedBy := Some(likedBy + [userId]))
  }

  /** The count agrees with the list of likers, and nobody is listed twice. */
  predicate LikesConsistent(e: Event)
  {
    LikesOf(e) == |LikedByOf(e)| && Distinct(LikedByOf(e))
  }

  /** A like by a listed user returns the event as stored; otherwise it adds one like and appends the user. */
  lemma LikeEffect(e: Event, userId: int)
    ensures userId in LikedByOf(e) ==> Like(e, userId) == e
    ensures userId !in LikedByOf(e) ==>
      LikesOf(Like(e, userId)) == LikesOf(e) + 1 && LikedByOf(Like(e, userId)) == LikedByOf(e) + [userId]
  {
  }

  /** A second like by the same user changes nothing. */
  lemma LikeIdempotent(e: Event, userId: int)
    ensures Like(Like(e, userId), userId) == Like(e, userId)
  {
  }

  /** A like keeps `likes == |likedBy|` with `likedBy` free of duplicates. */
  lemma LikePreservesConsistency(e: Event, userId: int)
    requires LikesConsistent(e)
    ensures LikesConsistent(Like(e, userId))
  {
    var s := LikedByOf(e);
    if userId !in s {
      var t := s + [userId];
      forall i, j | 0 <= i < j < |t| ensures t[i] != t[j] {
        if j == |s| { assert t[i] == s[i] && s[i] in s; }
      }
    }
  }

  /** `n` likes by one user, one after the other. */
  function LikeRepeatedly(e: Event, userId: int, n: nat): Event
  {
    if n == 0 then e else Like(LikeRepeatedly(e, userId, n - 1), userId)
  }

  /** Any positive number of likes by one user has the effect of one like. */
  lemma {:induction false} RepeatedLikesAreOneLike(e: Event, userId: int, n: nat)
    requires n >= 1
    ensures LikeRepeatedly(e, userId, n) == Like(e, userId)
  {
    if n > 1 {
      RepeatedLikesAreOneLike(e, userId, n - 1);
      LikeIdempotent(e, userId);
    }
  }

  /**
   * Likes by two different users give the same count and the same likers in
   * either order: run one after the other, neither like is lost.
   */
  lemma LikesCommute(e: Event, u: int, v: int)
    requires LikesConsistent(e) && u != v
    ensures LikesOf(Like(Like(e, u), v)) == LikesOf(Like(Like(e, v), u))
    ensures multiset(LikedByOf(Like(Like(e, u), v))) == multiset(LikedByOf(Like(Like(e, v), u)))
    ensures u in LikedByOf(Like(Like(e, u), v)) && v in LikedByOf(Like(Like(e, u), v))
  {
    var s := LikedByOf(e);
    LikeEffect(e, u);
    LikeEffect(e, v);
    LikeEffect(Like(e, u), v);
    LikeEffect(Like(e, v), u);
    if u !in s && v !in s {
      assert LikedByOf(Like(Like(e, u), v)) == s + [u] + [v];
      assert LikedByOf(Like(Like(e, v), u)) == s + [v] + [u];
    }
  }

  // === The foreign key from messages to users ===

  /** Messages keep referencing users when every old user id is still present. */
  lemma ReferencesKept(messages: seq<Message>, users: seq<User>, users': seq<User>)
    requires MessagesReferenceUsers(messages, users)
    requires forall j :: 0 <= j < |users| ==> HasKey(users', UserKey, users[j].id)
    ensures MessagesReferenceUsers(messages, users')
  {
    forall i | 0 <= i < |messages| ensures HasKey(users', UserKey, messages[i].userId) {
      assert HasKey(users, UserKey, messages[i].userId);
      var j :| 0 <= j < |users| && UserKey(users[j]) == messages[i].userId;
    }
  }

  /** Replacing one event by its liked form keeps the ids and the like invariant of the table. */
  lemma LikedEventsValid(events: seq<Event>, next: int, k: nat, userId: int) returns (liked: seq<Event>)
    requires KeysBelow(events, EventKey, next)
    requires forall i :: 0 <= i < |events| ==> LikesConsistent(events[i])
    requires k < |events|
    ensures liked == events[k := Like(events[k], userId)]
    ensures KeysBelow(liked, EventKey, next)
    ensures forall i :: 0 <= i < |liked| ==> LikesConsistent(liked[i])
  {
    liked := events[k := Like(events[k], userId)];
    LikePreservesConsistency(events[k], userId);
    KeysBelowUpdate(events, EventKey, next, k, Like(events[k], userId));
  }

  /** Overwriting a user with a row of the same id keeps every message's author present. */
  lemma UpdateKeepsReferences(messages: seq<Message>, users: seq<User>, k: nat, row: User)
    requires MessagesReferenceUsers(messages, users)
    requires k < |users| && row.id == users[k].id
    ensures MessagesReferenceUsers(messages, users[k := row])
  {
    var updated := users[k := row];
    forall j | 0 <= j < |users| ensures HasKey(updated, UserKey, users[j].id) {
      assert UserKey(updated[j]) == UserKey(users[j]);
    }
    ReferencesKept(messages, users, updated);
  }

  /** Deleting a user keeps the foreign key exactly when no message is by that user. */
  lemma DeleteUserReferences(messages: seq<Message>, users: seq<User>, id: int)
    requires MessagesReferenceUsers(messages, users)
    ensures MessagesReferenceUsers(messages, Without(users, UserKey, id)) <==> NoMessagesBy(messages, id)
  {
    var rest := Without(users, UserKey, id);
    if NoMessagesBy(messages, id) {
      forall i | 0 <= i < |messages| ensures HasKey(rest, UserKey, messages[i].userId) {
        assert HasKey(users, UserKey, messages[i].userId);
        var j :| 0 <= j < |users| && UserKey(users[j]) == messages[i].userId;
        assert users[j] in rest;
        var t :| 0 <= t < |rest| && rest[t] == users[j];
      }
    } else {
      var i :| 0 <= i < |messages| && messages[i].userId == id;
      assert forall t :: 0 <= t < |rest| ==> UserKey(rest[t]) != id;
      assert !HasKey(rest, UserKey, messages[i].userId);
    }
  }

  // === Sort keys ===

  function MessageTime(m: Message): int { m.createdAt }
  function EventDate(e: Event): int { e.date }
  function IsActive(a: Announcement): bool { a.active }

  /** The `DatabaseStorage` tables and the settings map. */
  class DatabaseStorage {
    var users: seq<User>
    var messages: seq<Message>
    var pages: seq<Page>
    var events: seq<Event>
    var pkBattles: seq<PkBattle>
    var announcements: seq<Announcement>
    var settings: map<string, string>
    // The next value of each table's `serial` id sequence.
    var nextUserId: int
    var nextMessageId: int
    var nextPageId: int
    var nextEventId: int
    var nextPkBattleId: int
    var nextAnnouncementId: int

    /** The constraints the schema declares, plus the like invariant every event keeps. */
    ghost predicate Valid()
      reads this
    {
      && KeysBelow(users, UserKey, nextUserId)
      && KeysBelow(messages, MessageKey, nextMessageId)
      && KeysBelow(pages, PageKey, nextPageId)
      && KeysBelow(events, EventKey, nextEventId)
      && KeysBelow(pkBattles, PkBattleKey, nextPkBattleId)
      && KeysBelow(announcements, AnnouncementKey, nextAnnouncementId)
      && UniqueUsernames(users)
      && UniqueSlugs(pages)
      && MessagesReferenceUsers(messages, users)
      && (forall i :: 0 <= i < |events| ==> LikesConsistent(events[i]))
    }

    /** Empty tables, every id sequence starting at 1. */
    constructor ()
      ensures Valid()
      ensures users == [] && messages == [] && pages == [] && events == []
      ensures pkBattles == [] && announcements == [] && settings == map[]
      ensures nextUserId == 1 && nextMessageId == 1 && nextPageId == 1
      ensures nextEventId == 1 && nextPkBattleId == 1 && nextAnnouncementId == 1
    {
      users, messages, pages, events, pkBattles, announcements := [], [], [], [], [], [];
      settings := map[];
      nextUserId, nextMessageId, nextPageId := 1, 1, 1;
      nextEventId, nextPkBattleId, nextAnnouncementId := 1, 1, 1;
    }

    // === Users ===

    method GetUser(id: int) returns (r: Option<User>)
      ensures r.None? <==> forall j :: 0 <= j < |users| ==> users[j].id != id
      ensures r.Some? ==> r.value in users && r.value.id == id
    {
      r := FindKey(users, UserKey, id);
    }

    method GetUserByUsername(username: string) returns (r: Option<User>)
      ensures r.None? <==> forall j :: 0 <= j < |users| ==> users[j].username != username
      ensures r.Some? ==> r.value in users && r.value.username == username
    {
      r := FindFirst(users, (u: User) => u.username == username);
    }

    /** Inserts the user; fails, leaving the table as it was, when the username is taken. */
    method CreateUser(ins: InsertUser) returns (r: Result<User, StorageError>)
      requires Valid()
      modifies this`users, this`nextUserId
      ensures Valid()
      ensures nextUserId == old(nextUserId) + 1
      ensures var row := NewUser(old(nextUserId), ins);
        if UsernameFree(old(users), ins.username)
        then r == Ok(row) && users == old(users) + [row]
        else r == Err(UniqueViolation("username")) && users == old(users)
    {
      var row := NewUser(nextUserId, ins);
      nextUserId := nextUserId + 1;
      UniqueAppend(users, Username, row);
      if !UniqueUsernames(users + [row]) {
        r := Err(UniqueViolation("username"));
        return;
      }
      AppendKeysBelow(users, UserKey, nextUserId - 1, row);
      forall j | 0 <= j < |users| ensures HasKey(users + [row], UserKey, users[j].id) {
        assert (users + [row])[j] == users[j];
      }
      ReferencesKept(messages, users, users + [row]);
      users := users + [row];
      r := Ok(row);
    }

    /**
     * Overwrites the fields the patch sets on the row with that id and returns
     * the updated row, or nothing when no row has that id; fails, leaving the
     * table as it was, when the new username belongs to another user.
     */
    method UpdateUser(id: int, patch: UserPatch) returns (r: Result<Option<User>, StorageError>)
      requires Valid()
      modifies this`users
      ensures Valid()
      ensures patch == EmptyUserPatch ==> r == Err(EmptyUpdate) && users == old(users)
      ensures patch != EmptyUserPatch ==>
        var k := IndexOfKey(old(users), UserKey, id);
        if k == |old(users)| then r == Ok(None) && users == old(users)
        else
          var row := ApplyUserPatch(old(users)[k], patch);
          if forall i :: 0 <= i < |old(users)| && i != k ==> old(users)[i].username != row.username
          then r == Ok(Some(row)) && users == old(users)[k := row]
          else r == Err(UniqueViolation("username")) && users == old(users)
    {
      if patch == EmptyUserPatch {
        r := Err(EmptyUpdate);
        return;
      }
      var k := IndexOfKey(users, UserKey, id);
      var updated := MapWhere(users, UserKey, id, (u: User) => ApplyUserPatch(u, patch));
      MapWhereUnique(users, UserKey, id, (u: User) => ApplyUserPatch(u, patch));
      if k == |users| {
        assert updated == users;
        r := Ok(None);
        return;
      }
      var row := ApplyUserPatch(users[k], patch);
      assert updated == users[k := row];
      UniqueUpdate(users, Username, k, row);
      if !UniqueUsernames(updated) {
        r := Err(UniqueViolation("username"));
        return;
      }
      KeysBelowUpdate(users, UserKey, nextUserId, k, row);
      UpdateKeepsReferences(messages, users, k, row);
      users := users[k := row];
      var found := FindKey(users, UserKey, id);
      UniqueKeyAt(users, UserKey, id, k);
      r := Ok(found);
    }

    /**
     * Hard-deletes every row with that id, whether or not there is one; fails,
     * leaving the table as it was, when a message still references that user.
     */
    method DeleteUser(id: int) returns (r: Result<(), StorageError>)
      requires Valid()
      modifies this`users
      ensures Valid()
      ensures if NoMessagesBy(messages, id)
        then r == Ok(()) && users == Without(old(users), UserKey, id)
        else r == Err(ForeignKeyViolation) && users == old(users)
    {
      var rest := Without(users, UserKey, id);
      DeleteUserReferences(messages, users, id);
      if !MessagesReferenceUsers(messages, rest) {
        r := Err(ForeignKeyViolation);
        return;
      }
      WithoutUnique(users, UserKey, id, UserKey);
      WithoutUnique(users, UserKey, id, Username);
      users := rest;
      r := Ok(());
    }

    method GetAllUsers() returns (r: seq<User>)
      ensures r == users
    {
      r := users;
    }

    // === Messages ===

    /** Every stored message, newest first (`ORDER BY created_at DESC`). */
    method GetMessages() returns (r: seq<Message>)
      ensures SortedDesc(r, MessageTime)
      ensures multiset(r) == multiset(messages)
    {
      r := SortDesc(messages, MessageTime);
    }

    /**
     * Inserts the message stamped with `now` and not deleted; fails, leaving
     * the table as it was, when its author is not a stored user.
     */
    method CreateMessage(ins: InsertMessage, now: int) returns (r: Result<Message, StorageError>)
      requires Valid()
      modifies this`messages, this`nextMessageId
      ensures Valid()
      ensures nextMessageId == old(nextMessageId) + 1
      ensures var row := NewMessage(old(nextMessageId), ins, now);
        if exists j :: 0 <= j < |users| && users[j].id == ins.userId
        then r == Ok(row) && messages == old(messages) + [row]
        else r == Err(ForeignKeyViolation) && messages == old(messages)
    {
      var row := NewMessage(nextMessageId, ins, now);
      nextMessageId := nextMessageId + 1;
      if !HasKey(users, UserKey, ins.userId) {
        r := Err(ForeignKeyViolation);
        return;
      }
      AppendKeysBelow(messages, MessageKey, nextMessageId - 1, row);
      messages := messages + [row];
      r := Ok(row);
    }

    /** Hard-deletes every message with that id, whether or not there is one. */
    method DeleteMessage(id: int)
      requires Valid()
      modifies this`messages
      ensures Valid()
      ensures messages == Without(old(messages), MessageKey, id)
    {
      var rest := Without(messages, MessageKey, id);
      WithoutUnique(messages, MessageKey, id, MessageKey);
      forall i | 0 <= i < |rest| ensures HasKey(users, UserKey, rest[i].userId) {
        var j :| 0 <= j < |messages| && messages[j] == rest[i];
        assert HasKey(users, UserKey, messages[j].userId);
      }
      messages := rest;
    }

    // === Pages ===

    method GetPages() returns (r: seq<Page>)
      ensures r == pages
    {
      r := pages;
    }

    /** Inserts the page with its defaults; fails, leaving the table as it was, when the slug is taken. */
    method CreatePage(ins: InsertPage) returns (r: Result<Page, StorageError>)
      requires Valid()
      modifies this`pages, this`nextPageId
      ensures Valid()
      ensures nextPageId == old(nextPageId) + 1
      ensures var row := NewPage(old(nextPageId), ins);
        if SlugFree(old(pages), ins.slug)
        then r == Ok(row) && pages == old(pages) + [row]
        else r == Err(UniqueViolation("slug")) && pages == old(pages)
    {
      var row := NewPage(nextPageId, ins);
      nextPageId := nextPageId + 1;
      UniqueAppend(pages, Slug, row);
      if !UniqueSlugs(pages + [row]) {
        r := Err(UniqueViolation("slug"));
        return;
      }
      AppendKeysBelow(pages, PageKey, nextPageId - 1, row);
      pages := pages + [row];
      r := Ok(row);
    }

    /**
     * Overwrites the fields the patch sets on the page with that id and returns
     * it, or nothing when no page has that id; fails, leaving the table as it
     * was, when the new slug belongs to another page.
     */
    method UpdatePage(id: int, patch: PagePatch) returns (r: Result<Option<Page>, StorageError>)
      requires Valid()
      modifies this`pages
      ensures Valid()
      ensures patch == EmptyPagePatch ==> r == Err(EmptyUpdate) && pages == old(pages)
      ensures patch != EmptyPagePatch ==>
        var k := IndexOfKey(old(pages), PageKey, id);
        if k == |old(pages)| then r == Ok(None) && pages == old(pages)
        else
          var row := ApplyPagePatch(old(pages)[k], patch);
          if forall i :: 0 <= i < |old(pages)| && i != k ==> old(pages)[i].slug != row.slug
          then r == Ok(Some(row)) && pages == old(pages)[k := row]
          else r == Err(UniqueViolation("slug")) && pages == old(pages)
    {
      if patch == EmptyPagePatch {
        r := Err(EmptyUpdate);
        return;
      }
      var k := IndexOfKey(pages, PageKey, id);
      var updated := MapWhere(pages, PageKey, id, (p: Page) => ApplyPagePatch(p, patch));
      MapWhereUnique(pages, PageKey, id, (p: Page) => ApplyPagePatch(p, patch));
      if k == |pages| {
        assert updated == pages;
        r := Ok(None);
        return;
      }
      var row := ApplyPagePatch(pages[k], patch);
      assert updated == pages[k := row];
      UniqueUpdate(pages, Slug, k, row);
      if !UniqueSlugs(updated) {
        r := Err(UniqueViolation("slug"));
        return;
      }
      KeysBelowUpdate(pages, PageKey, nextPageId, k, row);
      pages := updated;
      var found := FindKey(pages, PageKey, id);
      UniqueKeyAt(pages, PageKey, id, k);
      r := Ok(found);
    }

    /** Hard-deletes every page with that id, whether or not there is one. */
    method DeletePage(id: int)
      requires Valid()
      modifies this`pages
      ensures Valid()
      ensures pages == Without(old(pages), PageKey, id)
    {
      WithoutUnique(pages, PageKey, id, PageKey);
      WithoutUnique(pages, PageKey, id, Slug);
      pages := Without(pages, PageKey, id);
    }

    // === Events ===

    /** Every stored event, latest date first (`ORDER BY date DESC`). */
    method GetEvents() returns (r: seq<Event>)
      ensures SortedDesc(r, EventDate)
      ensures multiset(r) == multiset(events)
    {
      r := SortDesc(events, EventDate);
    }

    /** Inserts the event with no likes. */
    method CreateEvent(ins: InsertEvent) returns (r: Event)
      requires Valid()
      modifies this`events, this`nextEventId
      ensures Valid()
      ensures nextEventId == old(nextEventId) + 1
      ensures r == NewEvent(old(nextEventId), ins) && events == old(events) + [r]
    {
      r := NewEvent(nextEventId, ins);
      nextEventId := nextEventId + 1;
      AppendKeysBelow(events, EventKey, nextEventId - 1, r);
      events := events + [r];
    }

    /**
     * Reads the event, returns it as stored when the user already liked it,
     * and otherwise writes back one more like with the user appended.
     * Fails with "Event not found", changing nothing, when there is no such event.
     */
    method LikeEvent(id: int, userId: int) returns (r: Result<Event, StorageError>)
      requires Valid()
      modifies this`events
      ensures Valid()
      ensures var k := IndexOfKey(old(events), EventKey, id);
        if k == |old(events)| then r == Err(NotFound("Event not found")) && events == old(events)
        else
          var liked := Like(old(events)[k], userId);
          r == Ok(liked) && events == old(events)[k := liked]
    {
      var k := IndexOfKey(events, EventKey, id);
      var found := FindKey(events, EventKey, id);
      if found.None? {
        r := Err(NotFound("Event not found"));
        return;
      }
      var event := found.value;
      ghost var liked := LikedEventsValid(events, nextEventId, k, userId);
      var likedBy := LikedByOf(event);
      if userId in likedBy {
        assert liked == events;
        r := Ok(event);
        return;
      }
      var likes := Some(LikesOf(event) + 1);
      var newLikedBy := Some(likedBy + [userId]);
      var set_ := (e: Event) => e.(likes := likes, likedBy := newLikedBy);
      MapWhereUnique(events, EventKey, id, set_);
      assert set_(event) == Like(event, userId);
      assert MapWhere(events, EventKey, id, set_) == liked;
      events := events[k := Like(event, userId)];
      r := Ok(Like(event, userId));
    }

    // === PK battles ===

    method GetPkBattles() returns (r: seq<PkBattle>)
      ensures r == pkBattles
    {
      r := pkBattles;
    }

    method CreatePkBattle(ins: InsertPkBattle) returns (r: PkBattle)
      requires Valid()
      modifies this`pkBattles, this`nextPkBattleId
      ensures Valid()
      ensures nextPkBattleId == old(nextPkBattleId) + 1
      ensures r == NewPkBattle(old(nextPkBattleId), ins) && pkBattles == old(pkBattles) + [r]
    {
      r := NewPkBattle(nextPkBattleId, ins);
      nextPkBattleId := nextPkBattleId + 1;
      AppendKeysBelow(pkBattles, PkBattleKey, nextPkBattleId - 1, r);
      pkBattles := pkBattles + [r];
    }

    // === Announcements ===

    /** Exactly the active announcements, in stored order (`WHERE active = true`). */
    method GetAnnouncements() returns (r: seq<Announcement>)
      ensures forall i :: 0 <= i < |r| ==> r[i] in announcements && r[i].active
      ensures forall i :: 0 <= i < |announcements| && announcements[i].active ==> announcements[i] in r
      ensures r == Filter(announcements, IsActive)
    {
      r := Filter(announcements, IsActive);
    }

    method CreateAnnouncement(ins: InsertAnnouncement) returns (r: Announcement)
      requires Valid()
      modifies this`announcements, this`nextAnnouncementId
      ensures Valid()
      ensures nextAnnouncementId == old(nextAnnouncementId) + 1
      ensures r == NewAnnouncement(old(nextAnnouncementId), ins) && announcements == old(announcements) + [r]
    {
      r := NewAnnouncement(nextAnnouncementId, ins);
      nextAnnouncementId := nextAnnouncementId + 1;
      AppendKeysBelow(announcements, AnnouncementKey, nextAnnouncementId - 1, r);
      announcements := announcements + [r];
    }

    // === Settings: a key-value map, last write wins ===

    method GetSetting(key: string) returns (r: Option<string>)
      ensures r.Some? <==> key in settings
      ensures r.Some? ==> r.value == settings[key]
    {
      r := if key in settings then Some(settings[key]) else None;
    }

    method SetSetting(key: string, value: string)
      modifies this`settings
      ensures settings == old(settings)[key := value]
    {
      settings := settings[key := value];
    }
  }
}
