/**
 * The entities of the shared schema: one datatype per table row, the insert
 * shapes (which leave out the columns the database fills in), the defaults
 * applied on insert, and the partial patches used by the update operations.
 * Timestamps are integer milliseconds.
 */
module Schema {
  import opened Wrappers
  import opened Tables

  /** A user's role; `Member` is the role stored as the text "user". */
  datatype Role = Admin | Moderator | Member

  /** The text the `role` column stores for each role. */
  function RoleText(r: Role): string
  {
    match r
    case Admin => "admin"
    case Moderator => "moderator"
    case Member => "user"
  }

  /** The role enum's check: exactly the three role texts are accepted. */
  function ParseRole(s: string): (r: Option<Role>)
    ensures r.Some? <==> s == "admin" || s == "moderator" || s == "user"
    ensures r.Some? ==> RoleText(r.value) == s
  {
    if s == "admin" then Some(Admin)
    else if s == "moderator" then Some(Moderator)
    else if s == "user" then Some(Member)
    else None
  }

  /** Every role is written as a text the enum accepts, and reads back as itself. */
  lemma RoleRoundTrip(r: Role)
    ensures ParseRole(RoleText(r)) == Some(r)
  {
  }

  /** The role a user gets when the insert does not name one. */
  const DefaultRole: Role := Member

  /** The kind of a content page. */
  datatype PageType = Game | Movie | Custom

  function PageTypeText(t: PageType): string
  {
    match t
    case Game => "game"
    case Movie => "movie"
    case Custom => "custom"
  }

  /** The page-type enum's check: exactly "game", "movie" and "custom" are accepted. */
  function ParsePageType(s: string): (r: Option<PageType>)
    ensures r.Some? <==> s == "game" || s == "movie" || s == "custom"
    ensures r.Some? ==> PageTypeText(r.value) == s
  {
    if s == "game" then Some(Game)
    else if s == "movie" then Some(Movie)
    else if s == "custom" then Some(Custom)
    else None
  }

  // === Rows ===

  datatype User = User(
    id: int,
    username: string,
    password: string,          // stored as given by the caller
    role: Role,
    displayName: Option<string>,
    tag: Option<string>,
    tagColor: Option<string>,
    avatarUrl: Option<string>,
    isEmployeeOfMonth: bool)

  datatype Message = Message(
    id: int,
    userId: int,               // references a user
    content: string,
    replyToId: Option<int>,    // a plain integer, not a reference
    createdAt: int,
    isDeleted: bool)

  datatype Page = Page(
    id: int,
    slug: string,
    title: string,
    content: Option<string>,
    pageType: PageType,
    isVisible: bool,
    order: int)

  /** `likes` and `likedBy` are nullable columns; readers take null as 0 and as []. */
  datatype Event = Event(
    id: int,
    title: string,
    description: string,
    imageUrl: Option<string>,
    date: int,
    likes: Option<int>,
    likedBy: Option<seq<int>>)

  datatype PkBattle = PkBattle(
    id: int,
    title: string,
    imageUrl: Option<string>,
    roomId: string,
    playerCount: int,
    maxPlayers: int)

  datatype Announcement = Announcement(id: int, content: string, active: bool)

  // === Insert shapes: the columns a caller may give; `None` means "left out" ===

  datatype InsertUser = InsertUser(
    username: string,
    password: string,
    role: Option<Role>,
    displayName: Option<string>,
    tag: Option<string>,
    tagColor: Option<string>,
    avatarUrl: Option<string>,
    isEmployeeOfMonth: Option<bool>)

  /** No `id`, `createdAt` or `isDeleted`: the insert shape cannot carry them. */
  datatype InsertMessage = InsertMessage(userId: int, content: string, replyToId: Option<int>)

  datatype InsertPage = InsertPage(
    slug: string,
    title: string,
    content: Option<string>,
    pageType: PageType,
    isVisible: Option<bool>,
    order: Option<int>)

  /** No `likes` or `likedBy`: a new event cannot start with likes. */
  datatype InsertEvent = InsertEvent(title: string, description: string, imageUrl: Option<string>, date: int)

  datatype InsertPkBattle = InsertPkBattle(
    title: string,
    imageUrl: Option<string>,
    roomId: string,
    playerCount: Option<int>,
    maxPlayers: Option<int>)

  datatype InsertAnnouncement = InsertAnnouncement(content: string, active: Option<bool>)

  /** The body a client sends to create a chat message; the author is not part of it. */
  datatype CreateMessageRequest = CreateMessageRequest(content: string, replyToId: Option<int>)

  // === Rows built from inserts, with the column defaults ===

  function OrElse<T>(o: Option<T>, default: T): T
  {
    if o.Some? then o.value else default
  }

  function NewUser(id: int, ins: InsertUser): (u: User)
    ensures u.id == id && u.username == ins.username && u.password == ins.password
    ensures u.role == (if ins.role.Some? then ins.role.value else DefaultRole)
    ensures u.isEmployeeOfMonth == (ins.isEmployeeOfMonth == Some(true))
    ensures u.displayName == ins.displayName && u.tag == ins.tag
    ensures u.tagColor == ins.tagColor && u.avatarUrl == ins.avatarUrl
  {
    User(id, ins.username, ins.password, OrElse(ins.role, DefaultRole),
         ins.displayName, ins.tag, ins.tagColor, ins.avatarUrl, OrElse(ins.isEmployeeOfMonth, false))
  }

  function NewMessage(id: int, ins: InsertMessage, now: int): (m: Message)
    ensures m.id == id && m.userId == ins.userId && m.content == ins.content && m.replyToId == ins.replyToId
    ensures m.createdAt == now && !m.isDeleted
  {
    Message(id, ins.userId, ins.content, ins.replyToId, now, false)
  }

  function NewPage(id: int, ins: InsertPage): (p: Page)
    ensures p.id == id && p.slug == ins.slug && p.title == ins.title
    ensures p.content == ins.content && p.pageType == ins.pageType
    ensures p.isVisible == (ins.isVisible != Some(false))
    ensures p.order == (if ins.order.Some? then ins.order.value else 0)
  {
    Page(id, ins.slug, ins.title, ins.content, ins.pageType, OrElse(ins.isVisible, true), OrElse(ins.order, 0))
  }

  function NewEvent(id: int, ins: InsertEvent): (e: Event)
    ensures e.id == id && e.title == ins.title && e.description == ins.description
    ensures e.imageUrl == ins.imageUrl && e.date == ins.date
    ensures e.likes == Some(0) && e.likedBy == Some([])
  {
    Event(id, ins.title, ins.description, ins.imageUrl, ins.date, Some(0), Some([]))
  }

  function NewPkBattle(id: int, ins: InsertPkBattle): (b: PkBattle)
    ensures b.id == id && b.title == ins.title && b.imageUrl == ins.imageUrl && b.roomId == ins.roomId
    ensures b.playerCount == (if ins.playerCount.Some? then ins.playerCount.value else 2)
    ensures b.maxPlayers == (if ins.maxPlayers.Some? then ins.maxPlayers.value else 10)
  {
    PkBattle(id, ins.title, ins.imageUrl, ins.roomId, OrElse(ins.playerCount, 2), OrElse(ins.maxPlayers, 10))
  }

  function NewAnnouncement(id: int, ins: InsertAnnouncement): (a: Announcement)
    ensures a.id == id && a.content == ins.content
    ensures a.active == (ins.active != Some(false))
  {
    Announcement(id, ins.content, OrElse(ins.active, true))
  }

  /** Nothing relates a battle's player count to its maximum: an insert may give more players than the maximum. */
  lemma BattleCountUnconstrained(id: int)
    ensures var b := NewPkBattle(id, InsertPkBattle("duel", None, "room", Some(11), None));
            b.playerCount > b.maxPlayers
  {
  }

  // === Partial patches: `Keep` leaves a column as it is, `Set` overwrites it ===

  datatype Field<T> = Keep | Set(value: T)

  function Patched<T>(f: Field<T>, old_: T): T
  {
    if f.Set? then f.value else old_
  }

  datatype UserPatch = UserPatch(
    username: Field<string>,
    password: Field<string>,
    role: Field<Role>,
    displayName: Field<Option<string>>,
    tag: Field<Option<string>>,
    tagColor: Field<Option<string>>,
    avatarUrl: Field<Option<string>>,
    isEmployeeOfMonth: Field<bool>)

  datatype PagePatch = PagePatch(
    slug: Field<string>,
    title: Field<string>,
    content: Field<Option<string>>,
    pageType: Field<PageType>,
    isVisible: Field<bool>,
    order: Field<int>)

  const EmptyUserPatch := UserPatch(Keep, Keep, Keep, Keep, Keep, Keep, Keep, Keep)
  const EmptyPagePatch := PagePatch(Keep, Keep, Keep, Keep, Keep, Keep)

  /**
   * The row with the patch's present fields overwritten (`SET` of a partial
   * insert): the id is never patched, and an empty patch leaves the row as it
   * was.
   */
  function ApplyUserPatch(u: User, p: UserPatch): (r: User)
    ensures r.id == u.id
    ensures p == EmptyUserPatch ==> r == u
  {
    User(u.id, Patched(p.username, u.username), Patched(p.password, u.password), Patched(p.role, u.role),
         Patched(p.displayName, u.displayName), Patched(p.tag, u.tag), Patched(p.tagColor, u.tagColor),
         Patched(p.avatarUrl, u.avatarUrl), Patched(p.isEmployeeOfMonth, u.isEmployeeOfMonth))
  }

  /** The page with the patch's present fields overwritten; the id is never patched. */
  function ApplyPagePatch(pg: Page, p: PagePatch): (r: Page)
    ensures r.id == pg.id
    ensures p == EmptyPagePatch ==> r == pg
  {
    Page(pg.id, Patched(p.slug, pg.slug), Patched(p.title, pg.title), Patched(p.content, pg.content),
         Patched(p.pageType, pg.pageType), Patched(p.isVisible, pg.isVisible), Patched(p.order, pg.order))
  }

  /** A user patch overwrites exactly the fields it sets, keeps every other one, and applying it twice is applying it once. */
  lemma UserPatchFields(u: User, p: UserPatch)
    ensures var r := ApplyUserPatch(u, p);
      && r.id == u.id
      && (r.username == if p.username.Set? then p.username.value else u.username)
      && (r.password == if p.password.Set? then p.password.value else u.password)
      && (r.role == if p.role.Set? then p.role.value else u.role)
      && (r.displayName == if p.displayName.Set? then p.displayName.value else u.displayName)
      && (r.tag == if p.tag.Set? then p.tag.value else u.tag)
      && (r.tagColor == if p.tagColor.Set? then p.tagColor.value else u.tagColor)
      && (r.avatarUrl == if p.avatarUrl.Set? then p.avatarUrl.value else u.avatarUrl)
      && (r.isEmployeeOfMonth == if p.isEmployeeOfMonth.Set? then p.isEmployeeOfMonth.value else u.isEmployeeOfMonth)
    ensures ApplyUserPatch(ApplyUserPatch(u, p), p) == ApplyUserPatch(u, p)
  {
  }

  /** A page patch overwrites exactly the fields it sets, keeps every other one, and applying it twice is applying it once. */
  lemma PagePatchFields(pg: Page, p: PagePatch)
    ensures var r := ApplyPagePatch(pg, p);
      && r.id == pg.id
      && (r.slug == if p.slug.Set? then p.slug.value else pg.slug)
      && (r.title == if p.title.Set? then p.title.value else pg.title)
      && (r.content == if p.content.Set? then p.content.value else pg.content)
      && (r.pageType == if p.pageType.Set? then p.pageType.value else pg.pageType)
      && (r.isVisible == if p.isVisible.Set? then p.isVisible.value else pg.isVisible)
      && (r.order == if p.order.Set? then p.order.value else pg.order)
    ensures ApplyPagePatch(ApplyPagePatch(pg, p), p) == ApplyPagePatch(pg, p)
  {
  }

  // === Keys and table constraints ===

  function UserKey(u: User): int { u.id }
  function MessageKey(m: Message): int { m.id }
  function PageKey(p: Page): int { p.id }
  function EventKey(e: Event): int { e.id }
  function PkBattleKey(b: PkBattle): int { b.id }
  function AnnouncementKey(a: Announcement): int { a.id }

  function Username(u: User): string { u.username }

  /** The name the pages show for a user: `displayName || username`. */
  function ShownName(u: User): (r: string)
    ensures u.displayName.Some? && u.displayName.value != "" ==> r == u.displayName.value
    ensures u.displayName.None? || u.displayName.value == "" ==> r == u.username
  {
    if u.displayName.Some? && u.displayName.value != "" then u.displayName.value else u.username
  }

  /**
   * What a patch does to the shown name: a non-empty display name it sets is
   * shown; clearing the display name (to null or "") shows the username, the
   * patched one if the patch sets it; a patch that leaves the display name
   * alone shows the old display name when it was non-empty.
   */
  lemma ShownNameAfterPatch(u: User, p: UserPatch)
    ensures var r := ApplyUserPatch(u, p);
      && (p.displayName.Set? && p.displayName.value.Some? && p.displayName.value.value != "" ==>
            ShownName(r) == p.displayName.value.value)
      && (p.displayName.Set? && (p.displayName.value.None? || p.displayName.value.value == "") ==>
            ShownName(r) == r.username)
      && (p.displayName.Keep? && u.displayName.Some? && u.displayName.value != "" ==>
            ShownName(r) == ShownName(u))
      && (p.displayName.Keep? && p.username.Keep? ==> ShownName(r) == ShownName(u))
  {
  }

  function Slug(p: Page): string { p.slug }

  /** No stored user has this username yet. */
  predicate UsernameFree(users: seq<User>, username: string)
  {
    forall i :: 0 <= i < |users| ==> users[i].username != username
  }

  /** No stored page has this slug yet. */
  predicate SlugFree(pages: seq<Page>, slug: string)
  {
    forall i :: 0 <= i < |pages| ==> pages[i].slug != slug
  }

  /** The `unique()` constraint on `users.username`. */
  predicate UniqueUsernames(users: seq<User>)
  {
    Unique(users, Username)
  }

  /** The `unique()` constraint on `pages.slug`. */
  predicate UniqueSlugs(pages: seq<Page>)
  {
    Unique(pages, Slug)
  }

  /** No stored message has this author. */
  predicate NoMessagesBy(messages: seq<Message>, userId: int)
  {
    forall i :: 0 <= i < |messages| ==> messages[i].userId != userId
  }

  /** The foreign key `messages.user_id -> users.id`. */
  predicate MessagesReferenceUsers(messages: seq<Message>, users: seq<User>)
  {
    forall i :: 0 <= i < |messages| ==> HasKey(users, UserKey, messages[i].userId)
  }
}
