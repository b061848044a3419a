/**
 * The chat widget: who may see a delete button on a message, what a submit
 * sends and how it resets the input, and the "replying to" line above a
 * message.
 */
module ChatWidget {
  import opened Wrappers
  import opened Tables
  import opened Schema
  import ServerRoutes

  // === Lookups over the lists the widget has loaded ===

  /** `users?.find(u => u.id === id)`: nothing while the list is not loaded. */
  function GetUser(users: Option<seq<User>>, id: int): (r: Option<User>)
    ensures r.None? <==> users.None? || !HasKey(users.value, UserKey, id)
    ensures r.Some? ==> r.value.id == id && r.value in users.value
  {
    if users.None? then None else FindKey(users.value, UserKey, id)
  }

  /** `messages?.find(m => m.id === id)` */
  function GetMessage(messages: Option<seq<Message>>, id: int): (r: Option<Message>)
    ensures r.None? <==> messages.None? || !HasKey(messages.value, MessageKey, id)
    ensures r.Some? ==> r.value.id == id && r.value in messages.value
  {
    if messages.None? then None else FindKey(messages.value, MessageKey, id)
  }

  // === Who may delete a message ===

  /** Fifteen minutes, in milliseconds. */
  const DeleteWindow := 15 * 60 * 1000

  /**
   * `canDelete`: staff may delete every message; a plain user only their own,
   * and only while it is less than fifteen minutes old.
   */
  function CanDelete(user: Option<User>, msg: Message, now: int): (r: bool)
    ensures r ==> user.Some?
    ensures r && user.value.role == Member ==> msg.userId == user.value.id && now - msg.createdAt < DeleteWindow
  {
    if user.None? then false
    else if user.value.role == Admin || user.value.role == Moderator then true
    else if msg.userId == user.value.id then now - msg.createdAt < DeleteWindow
    else false
  }

  /** Nobody logged in: no delete button anywhere. */
  lemma NoUserCannotDelete(msg: Message, now: int)
    ensures !CanDelete(None, msg, now)
  {
  }

  /** Admins and moderators may delete every message, whoever wrote it and whenever. */
  lemma StaffCanDeleteAll(u: User, msg: Message, now: int)
    requires u.role == Admin || u.role == Moderator
    ensures CanDelete(Some(u), msg, now)
  {
  }

  /** A plain user may delete exactly their own messages younger than fifteen minutes. */
  lemma MemberDeleteRule(u: User, msg: Message, now: int)
    requires u.role == Member
    ensures CanDelete(Some(u), msg, now) <==> msg.userId == u.id && now - msg.createdAt < 900000
  {
  }

  /** The window is open on the left: at exactly fifteen minutes it has closed. */
  lemma DeleteWindowIsStrict(u: User, msg: Message)
    requires u.role == Member && msg.userId == u.id
    ensures CanDelete(Some(u), msg, msg.createdAt + 900000 - 1)
    ensures !CanDelete(Some(u), msg, msg.createdAt + 900000)
  {
  }

  /**
   * The fifteen-minute rule lives only in the widget: the server's
   * DELETE /api/messages/:id lets the same user through even after the
   * window has closed, and on a message someone else wrote.
   */
  lemma ServerIgnoresDeleteWindow(u: User, msg: Message, now: int)
    requires u.role == Member
    ensures ServerRoutes.Guard(Some(ServerRoutes.Principal(u.id, u.role)), ServerRoutes.DeleteMessage) == ServerRoutes.Proceed
    ensures msg.userId != u.id ==> !CanDelete(Some(u), msg, now)
  {
  }

  // === The input and submit ===

  /** The characters `String.prototype.trim` removes: white space and line terminators. */
  predicate IsTrimmed(c: char)
  {
    c == '\t' || c == '\n' || c == '\U{000B}' || c == '\U{000C}' || c == '\r' || c == ' '
    || c == '\U{00A0}' || c == '\U{1680}' || ('\U{2000}' <= c <= '\U{200A}')
    || c == '\U{2028}' || c == '\U{2029}' || c == '\U{202F}' || c == '\U{205F}' || c == '\U{3000}' || c == '\U{FEFF}'
  }

  predicate IsBlank(s: string)
  {
    forall i :: 0 <= i < |s| ==> IsTrimmed(s[i])
  }

  function TrimStart(s: string): (r: string)
    ensures |r| <= |s| && r == s[|s| - |r|..]
    ensures |r| > 0 ==> !IsTrimmed(r[0])
    ensures forall i :: 0 <= i < |s| - |r| ==> IsTrimmed(s[i])
  {
    if |s| > 0 && IsTrimmed(s[0]) then TrimStart(s[1..]) else s
  }

  function TrimEnd(s: string): (r: string)
    ensures |r| <= |s| && r == s[..|r|]
    ensures |r| > 0 ==> !IsTrimmed(r[|r| - 1])
    ensures forall i :: |r| <= i < |s| ==> IsTrimmed(s[i])
  {
    if |s| > 0 && IsTrimmed(s[|s| - 1]) then TrimEnd(s[..|s| - 1]) else s
  }

  /**
   * `s.trim()`: the input with its leading and trailing white space removed,
   * so it neither starts nor ends with white space.
   */
  function Trim(s: string): (r: string)
    ensures |r| <= |s|
    ensures |r| > 0 ==> !IsTrimmed(r[0]) && !IsTrimmed(r[|r| - 1])
    ensures exists a :: 0 <= a && a + |r| <= |s| && r == s[a..a + |r|] && IsBlank(s[..a]) && IsBlank(s[a + |r|..])
  {
    var t := TrimStart(s);
    var r := TrimEnd(t);
    var a := |s| - |t|;
    assert t == s[a..];
    assert r == t[..|r|] == s[a..a + |r|];
    assert IsBlank(s[..a]);
    var tail := s[a + |r|..];
    assert IsBlank(tail) by {
      forall i | 0 <= i < |tail|
        ensures IsTrimmed(tail[i])
      {
        assert tail[i] == t[|r| + i];
      }
    }
    r
  }

  /** `!s.trim()` holds exactly for the strings made only of white space, the empty one included. */
  lemma TrimEmptyIffBlank(s: string)
    ensures Trim(s) == "" <==> IsBlank(s)
  {
    var t := TrimStart(s);
    if Trim(s) == "" {
      assert |t| == 0;
    } else {
      var r := Trim(s);
      assert !IsTrimmed(r[0]);
      assert r[0] == t[0] == s[|s| - |t|];
    }
  }

  /** `replyTo || undefined`: no reply target is sent for a missing or zero id. */
  function ReplyIdToSend(replyTo: Option<int>): (r: Option<int>)
    ensures r.Some? <==> replyTo.Some? && replyTo.value != 0
    ensures r.Some? ==> r == replyTo
  {
    if replyTo.Some? && replyTo.value != 0 then replyTo else None
  }

  /** The widget's input state: the text being typed and the message being answered. */
  class ChatState {
    var content: string
    var replyTo: Option<int>

    constructor ()
      ensures content == "" && replyTo == None
    {
      content := "";
      replyTo := None;
    }

    /** Typing into the input. */
    method Type(text: string)
      modifies this`content
      ensures content == text && replyTo == old(replyTo)
    {
      content := text;
    }

    /** The reply button of a message. */
    method StartReply(id: int)
      modifies this`replyTo
      ensures replyTo == Some(id) && content == old(content)
    {
      replyTo := Some(id);
    }

    /** The close button of the "replying to" bar. */
    method CancelReply()
      modifies this`replyTo
      ensures replyTo == None && content == old(content)
    {
      replyTo := None;
    }

    /**
     * `handleSubmit`: sends nothing while the input is blank or nobody is
     * logged in; otherwise sends the text as typed (untrimmed) with the reply
     * target, and clears both only when the request succeeds.
     */
    method Submit(user: Option<User>, succeeded: bool) returns (sent: Option<CreateMessageRequest>)
      modifies this
      ensures IsBlank(old(content)) || user.None? ==>
        sent.None? && content == old(content) && replyTo == old(replyTo)
      ensures !IsBlank(old(content)) && user.Some? ==>
        sent == Some(CreateMessageRequest(old(content), ReplyIdToSend(old(replyTo))))
      ensures !IsBlank(old(content)) && user.Some? && succeeded ==> content == "" && replyTo == None
      ensures !succeeded ==> content == old(content) && replyTo == old(replyTo)
    {
      TrimEmptyIffBlank(content);
      if Trim(content) == "" || user.None? {
        return None;
      }
      sent := Some(CreateMessageRequest(content, ReplyIdToSend(replyTo)));
      if succeeded {
        content := "";
        replyTo := None;
      }
    }
  }

  // === What a message shows ===

  /** The author name shown for a deleted or nameless author. */
  const DeletedAuthor := "Silinmiş"

  /**
   * The "replying to" line of a message: shown when the message has a
   * non-zero reply id whose message is in the loaded list; it names that
   * message's author, or says "Silinmiş" when the author is not in the list
   * or has an empty name.
   */
  function ReplyContext(messages: Option<seq<Message>>, users: Option<seq<User>>, msg: Message): (r: Option<string>)
    ensures r.Some? ==> msg.replyToId.Some? && GetMessage(messages, msg.replyToId.value).Some?
    ensures r.Some? ==> r.value != ""
  {
    if msg.replyToId.None? || msg.replyToId.value == 0 then None
    else
      match GetMessage(messages, msg.replyToId.value)
      case None => None
      case Some(target) =>
        var author := GetUser(users, target.userId);
        Some(if author.Some? && author.value.username != "" then author.value.username else DeletedAuthor)
  }

  /** The line appears exactly when the reply target is a non-zero id found in the loaded messages. */
  lemma ReplyContextShown(messages: Option<seq<Message>>, users: Option<seq<User>>, msg: Message)
    ensures ReplyContext(messages, users, msg).Some? <==>
      msg.replyToId.Some? && msg.replyToId.value != 0 && messages.Some? && HasKey(messages.value, MessageKey, msg.replyToId.value)
  {
  }

  /** The name on the line: the target's author when known and named, "Silinmiş" otherwise. */
  lemma ReplyContextName(messages: Option<seq<Message>>, users: Option<seq<User>>, msg: Message)
    requires ReplyContext(messages, users, msg).Some?
    ensures var target := GetMessage(messages, msg.replyToId.value).value;
      var name := ReplyContext(messages, users, msg).value;
      if users.Some? && HasKey(users.value, UserKey, target.userId) && GetUser(users, target.userId).value.username != ""
      then name == GetUser(users, target.userId).value.username
      else name == DeletedAuthor
  {
  }

  /**
   * The name over a message: `author?.displayName || author?.username`, the
   * author's shown name when the author is in the loaded list, and nothing
   * when not.
   */
  function AuthorLabel(users: Option<seq<User>>, msg: Message): (r: Option<string>)
    ensures r.Some? <==> users.Some? && HasKey(users.value, UserKey, msg.userId)
    ensures r.Some? ==> r.value == ShownName(GetUser(users, msg.userId).value)
  {
    match GetUser(users, msg.userId)
    case None => None
    case Some(author) => Some(ShownName(author))
  }

  /**
   * After the author's row is patched, a message by that author shows the
   * display name the patch set, when it set a non-empty one.
   */
  lemma AuthorLabelAfterPatch(users: seq<User>, k: nat, p: UserPatch, msg: Message)
    requires Unique(users, UserKey) && k < |users| && msg.userId == users[k].id
    requires p.displayName.Set? && p.displayName.value.Some? && p.displayName.value.value != ""
    ensures AuthorLabel(Some(users[k := ApplyUserPatch(users[k], p)]), msg) == Some(p.displayName.value.value)
  {
    var patched := users[k := ApplyUserPatch(users[k], p)];
    UniqueUpdate(users, UserKey, k, ApplyUserPatch(users[k], p));
    assert UserKey(patched[k]) == msg.userId;
    var found := GetUser(Some(patched), msg.userId).value;
    var j :| 0 <= j < |patched| && patched[j] == found;
    assert UserKey(patched[j]) == UserKey(patched[k]);
    ShownNameAfterPatch(users[k], p);
  }
}
