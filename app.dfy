/**
 * The conversation list of the chat application and how the app changes it:
 * pinning, renaming and deleting a conversation, the sidebar order, sending
 * a message (a new conversation or one more message in the current one),
 * taking the message back when the request fails, and collecting a streamed
 * answer with its cited sources.
 *
 * The app keeps the list in React state and updates it with pure
 * `map`/`filter` expressions over the previous list; those are functions
 * here. The streamed answer is built by a loop that updates one message in
 * place; that is a method.
 */
module Conversations {
  import opened Wrappers
  import opened JsText
  import opened ChatTypes
  import opened Ordering

  // ---------------------------------------------------------------------
  // Pin, rename, delete
  // ---------------------------------------------------------------------

  /** Two conversations agree on everything but the pinned flag. */
  predicate SameButPinned(a: Conversation, b: Conversation)
  {
    a.id == b.id && a.title == b.title && a.messages == b.messages
  }

  /**
   * `handlePinConversation`: the entries with the id get the flag; the list
   * keeps its length and order, and nothing else changes.
   */
  function Pin(cs: seq<Conversation>, id: string, pinned: bool): (r: seq<Conversation>)
    ensures |r| == |cs|
    ensures forall k :: 0 <= k < |r| ==> SameButPinned(r[k], cs[k])
    ensures forall k :: 0 <= k < |r| ==> r[k].pinned == (if cs[k].id == id then pinned else cs[k].pinned)
  {
    seq(|cs|, k requires 0 <= k < |cs| => if cs[k].id == id then cs[k].(pinned := pinned) else cs[k])
  }

  /** Pinning twice leaves the flag of the second call: the last click wins. */
  lemma PinLastWins(cs: seq<Conversation>, id: string, p: bool, q: bool)
    ensures Pin(Pin(cs, id, p), id, q) == Pin(cs, id, q)
  {
    var a := Pin(Pin(cs, id, p), id, q);
    var b := Pin(cs, id, q);
    forall k | 0 <= k < |cs| ensures a[k] == b[k] {
      assert SameButPinned(a[k], cs[k]) && SameButPinned(b[k], cs[k]);
    }
  }

  /** Unpinning an entry that was pinned by a click gives back the list as it was, if it was unpinned. */
  lemma PinUnpin(cs: seq<Conversation>, id: string)
    requires forall k :: 0 <= k < |cs| && cs[k].id == id ==> !cs[k].pinned
    ensures Pin(Pin(cs, id, true), id, false) == cs
  {
    PinLastWins(cs, id, true, false);
    var b := Pin(cs, id, false);
    forall k | 0 <= k < |cs| ensures b[k] == cs[k] {
      assert SameButPinned(b[k], cs[k]);
    }
  }

  /**
   * `handleRenameConversation` with the answer of the title prompt (`None`
   * when the prompt was cancelled): a blank or missing answer changes
   * nothing; otherwise the entries with the id take the trimmed answer as
   * their title and nothing else changes.
   */
  function Rename(cs: seq<Conversation>, id: string, answer: Option<string>): (r: seq<Conversation>)
    ensures answer.None? || IsBlank(answer.value) ==> r == cs
    ensures |r| == |cs|
    ensures forall k :: 0 <= k < |r| ==>
      r[k] == (if cs[k].id == id && answer.Some? && !IsBlank(answer.value) then cs[k].(title := Trim(answer.value)) else cs[k])
  {
    if answer.Some? && answer.value != [] && Trim(answer.value) != [] then
      seq(|cs|, k requires 0 <= k < |cs| => if cs[k].id == id then cs[k].(title := Trim(answer.value)) else cs[k])
    else cs
  }

  /** A renamed conversation's title is never empty and has no whitespace at either end. */
  lemma RenamedTitle(cs: seq<Conversation>, id: string, answer: Option<string>, k: nat)
    requires k < |cs| && cs[k].id == id
    requires answer.Some? && !IsBlank(answer.value)
    ensures var t := Rename(cs, id, answer)[k].title;
      t != [] && !IsSpace(t[0]) && !IsSpace(t[|t| - 1])
  {
  }

  /** The entries without the id, in their order. */
  function Without(cs: seq<Conversation>, id: string): (r: seq<Conversation>)
    ensures |r| <= |cs|
    ensures forall c :: c in r <==> c in cs && c.id != id
  {
    if cs == [] then []
    else (if cs[0].id == id then [] else [cs[0]]) + Without(cs[1..], id)
  }

  /** Removing entries keeps the order of the rest: it distributes over concatenation. */
  lemma {:induction false} WithoutAppend(a: seq<Conversation>, b: seq<Conversation>, id: string)
    ensures Without(a + b, id) == Without(a, id) + Without(b, id)
    decreases |a|
  {
    if a == [] {
      assert a + b == b;
    } else {
      assert (a + b)[0] == a[0];
      assert (a + b)[1..] == a[1..] + b;
      WithoutAppend(a[1..], b, id);
    }
  }

  /** Nothing to remove leaves the list as it is. */
  lemma {:induction false} WithoutAbsent(cs: seq<Conversation>, id: string)
    requires forall k :: 0 <= k < |cs| ==> cs[k].id != id
    ensures Without(cs, id) == cs
    decreases |cs|
  {
    if cs != [] {
      WithoutAbsent(cs[1..], id);
    }
  }

  /** `findIndex`: the first index whose entry satisfies `p`, if any. */
  function FirstIndex<T>(s: seq<T>, p: T -> bool): (r: Option<nat>)
    ensures r.Some? ==> r.value < |s| && p(s[r.value]) && forall k :: 0 <= k < r.value ==> !p(s[k])
    ensures r.None? ==> forall k :: 0 <= k < |s| ==> !p(s[k])
  {
    if s == [] then None
    else if p(s[0]) then Some(0)
    else match FirstIndex(s[1..], p)
      case None => None
      case Some(k) => Some(k + 1)
  }

  /** What the app shows: the list, and the id of the open conversation if any. */
  datatype View = View(conversations: seq<Conversation>, current: Option<string>)

  /**
   * `handleDeleteConversation`: the entries with the id go, the others stay
   * in order, and the open conversation is closed exactly when it was the
   * deleted one.
   */
  function Delete(v: View, id: string): (r: View)
    ensures r.conversations == Without(v.conversations, id)
    ensures r.current == None <==> v.current == None || v.current == Some(id)
    ensures r.current != None ==> r.current == v.current
  {
    View(Without(v.conversations, id), if v.current == Some(id) then None else v.current)
  }

  /** Deleting twice is deleting once. */
  lemma DeleteTwice(v: View, id: string)
    ensures Delete(Delete(v, id), id) == Delete(v, id)
  {
    var once := Without(v.conversations, id);
    forall k | 0 <= k < |once| ensures once[k].id != id {
      assert once[k] in once;
    }
    WithoutAbsent(once, id);
  }

  // ---------------------------------------------------------------------
  // The sidebar order
  // ---------------------------------------------------------------------

  /** `parseInt(c.id, 10) || 0`: ids are creation times in milliseconds. */
  function Time(c: Conversation): int
  {
    ParseIntOrZero(c.id)
  }

  predicate IsPinned(c: Conversation)
  {
    c.pinned
  }

  predicate IsUnpinned(c: Conversation)
  {
    !c.pinned
  }

  /**
   * `sortedConversations`: a stable sort newest first, then a stable sort
   * that only puts pinned before unpinned (the key 1 for pinned, 0 for the
   * others).
   */
  function SortedConversations(cs: seq<Conversation>): seq<Conversation>
  {
    SortDescending(SortDescending(cs, Time), FlagKey(IsPinned))
  }

  /** The second sort keeps each group in the order of the first: the pinned ones, then the others. */
  lemma SortedPartition(cs: seq<Conversation>)
    ensures var byTime := SortDescending(cs, Time);
      SortedConversations(cs) == Filter(byTime, IsPinned) + Filter(byTime, IsUnpinned)
  {
    SortByFlag(SortDescending(cs, Time), IsPinned, IsUnpinned);
  }

  /**
   * The sidebar lists every conversation exactly as often as the list holds
   * it, the pinned ones first, and within the pinned and within the unpinned
   * ones newest first.
   */
  lemma SortedConversationsSpec(cs: seq<Conversation>)
    ensures multiset(SortedConversations(cs)) == multiset(cs)
    ensures forall i, j :: 0 <= i < j < |SortedConversations(cs)| && SortedConversations(cs)[j].pinned ==>
      SortedConversations(cs)[i].pinned
    ensures forall i, j ::
      (0 <= i < j < |SortedConversations(cs)| && SortedConversations(cs)[i].pinned == SortedConversations(cs)[j].pinned) ==>
      Time(SortedConversations(cs)[i]) >= Time(SortedConversations(cs)[j])
  {
    var t := SortDescending(cs, Time);
    SortedPartition(cs);
    SortDescendingSpec(cs, Time);
    FilterSplit(t, IsPinned, IsUnpinned);
    FilterDescending(t, IsPinned, Time);
    FilterDescending(t, IsUnpinned, Time);
    GroupsInOrder(Filter(t, IsPinned), Filter(t, IsUnpinned), IsPinned, Time);
  }

  // ---------------------------------------------------------------------
  // Sending a message, and taking it back
  // ---------------------------------------------------------------------

  /** `{ ...c, messages: [...c.messages, m] }` for the entries with the id. */
  function AppendMessage(cs: seq<Conversation>, id: string, m: Message): (r: seq<Conversation>)
    ensures |r| == |cs|
    ensures forall k :: 0 <= k < |r| ==> r[k].id == cs[k].id && r[k].title == cs[k].title && r[k].pinned == cs[k].pinned
    ensures forall k :: 0 <= k < |r| ==> r[k].messages == if cs[k].id == id then cs[k].messages + [m] else cs[k].messages
  {
    seq(|cs|, k requires 0 <= k < |cs| => if cs[k].id == id then cs[k].(messages := cs[k].messages + [m]) else cs[k])
  }

  /**
   * The undo on a failed request: the entries with the id lose their last
   * message (`slice(0, -1)`, which leaves an empty list empty); the others
   * are unchanged.
   */
  function DropLast(cs: seq<Conversation>, id: string): (r: seq<Conversation>)
    ensures |r| == |cs|
    ensures forall k :: 0 <= k < |r| ==> r[k].id == cs[k].id && r[k].title == cs[k].title && r[k].pinned == cs[k].pinned
    ensures forall k :: 0 <= k < |r| && cs[k].id == id ==>
      (cs[k].messages == [] && r[k].messages == []) || (cs[k].messages != [] && r[k].messages + [Last(cs[k].messages)] == cs[k].messages)
    ensures forall k :: 0 <= k < |r| && cs[k].id != id ==> r[k] == cs[k]
  {
    seq(|cs|, k requires 0 <= k < |cs| =>
      if cs[k].id == id then cs[k].(messages := cs[k].messages[..if |cs[k].messages| == 0 then 0 else |cs[k].messages| - 1])
      else cs[k])
  }

  function Last(ms: seq<Message>): Message
    requires ms != []
  {
    ms[|ms| - 1]
  }

  /** Taking back the message just appended restores the list. */
  lemma DropLastUndoesAppend(cs: seq<Conversation>, id: string, m: Message)
    ensures DropLast(AppendMessage(cs, id, m), id) == cs
  {
    var a := AppendMessage(cs, id, m);
    var r := DropLast(a, id);
    forall k | 0 <= k < |cs| ensures r[k] == cs[k] {
      if cs[k].id == id {
        assert a[k].messages[..|a[k].messages| - 1] == cs[k].messages;
      }
    }
  }

  /**
   * The start of `handleSendMessage`: with no open conversation (no id, or an empty one) a new conversation whose id
   * is the current time in milliseconds is put at the front, holding the
   * user's message only, and opened; otherwise the message is appended to
   * the open conversation.
   */
  function StartSend(v: View, userMessage: Message, now: nat): (r: View)
    ensures IsNew(v) ==>
      && r.current == Some(Decimal(now))
      && r.conversations == [Conversation(Decimal(now), "New Conversation", [userMessage], false)] + v.conversations
    ensures !IsNew(v) ==> r == View(AppendMessage(v.conversations, v.current.value, userMessage), v.current)
  {
    if IsNew(v) then
      var id := Decimal(now);
      View([Conversation(id, "New Conversation", [userMessage], false)] + v.conversations, Some(id))
    else
      View(AppendMessage(v.conversations, v.current.value, userMessage), v.current)
  }

  /** `!currentConversationId`: no id, or the empty one. */
  predicate IsNew(v: View)
  {
    v.current == None || v.current == Some("")
  }

  /** A failed request in an open conversation leaves the list as it was before sending. */
  lemma SendThenRevert(v: View, userMessage: Message, now: nat)
    requires !IsNew(v)
    ensures DropLast(StartSend(v, userMessage, now).conversations, v.current.value) == v.conversations
  {
    DropLastUndoesAppend(v.conversations, v.current.value, userMessage);
  }

  /**
   * A failed request that started a new conversation leaves that
   * conversation in the list, empty; the other entries keep their messages.
   */
  lemma NewSendThenRevert(v: View, userMessage: Message, now: nat)
    requires IsNew(v)
    requires forall k :: 0 <= k < |v.conversations| ==> v.conversations[k].id != Decimal(now)
    ensures var r := DropLast(StartSend(v, userMessage, now).conversations, Decimal(now));
      r == [Conversation(Decimal(now), "New Conversation", [], false)] + v.conversations
  {
    var s := StartSend(v, userMessage, now).conversations;
    var r := DropLast(s, Decimal(now));
    forall k | 0 < k < |r| ensures r[k] == v.conversations[k - 1] {
      assert s[k] == v.conversations[k - 1];
    }
    assert s[0].messages[..0] == [];
  }

  /** The new conversation's id reads back as its creation time, so the time sort places it by that time. */
  lemma NewConversationTime(v: View, userMessage: Message, now: nat)
    requires IsNew(v)
    ensures Time(StartSend(v, userMessage, now).conversations[0]) == now
  {
    ParseDecimal(now);
  }

  /**
   * The end of a successful `handleSendMessage`: a new conversation with a
   * non-empty answer gets the user message and the answer as its messages
   * and the generated title; otherwise the answer is appended. The id and
   * the pinned flag stay, and the other entries are unchanged.
   */
  function Complete(cs: seq<Conversation>, id: string, isNew: bool, userMessage: Message, answer: Message, title: string): (r: seq<Conversation>)
    ensures |r| == |cs|
    ensures forall k :: 0 <= k < |r| && cs[k].id != id ==> r[k] == cs[k]
    ensures forall k :: 0 <= k < |r| && cs[k].id == id ==> r[k].id == id && r[k].pinned == cs[k].pinned
    ensures forall k :: 0 <= k < |r| && cs[k].id == id && isNew && answer.content != "" ==>
      r[k].messages == [userMessage, answer] && r[k].title == title
    ensures forall k :: 0 <= k < |r| && cs[k].id == id && !(isNew && answer.content != "") ==>
      r[k].messages == cs[k].messages + [answer] && r[k].title == cs[k].title
    ensures forall k :: 0 <= k < |r| && cs[k].id == id ==> r[k].messages != [] && Last(r[k].messages) == answer
  {
    if isNew && answer.content != "" then
      seq(|cs|, k requires 0 <= k < |cs| => if cs[k].id == id then cs[k].(messages := [userMessage, answer], title := title) else cs[k])
    else AppendMessage(cs, id, answer)
  }

  /**
   * A send in an open conversation that succeeds adds the user's message and
   * the answer to it, in that order; every other entry is unchanged.
   */
  lemma SendThenAnswer(v: View, userMessage: Message, now: nat, answer: Message, title: string)
    requires !IsNew(v)
    ensures var r := Complete(StartSend(v, userMessage, now).conversations, v.current.value, false, userMessage, answer, title);
      && |r| == |v.conversations|
      && forall k :: 0 <= k < |r| ==>
        r[k] == if v.conversations[k].id == v.current.value
          then v.conversations[k].(messages := v.conversations[k].messages + [userMessage, answer])
          else v.conversations[k]
  {
    var id := v.current.value;
    var s := StartSend(v, userMessage, now).conversations;
    var r := Complete(s, id, false, userMessage, answer, title);
    forall k | 0 <= k < |r| ensures r[k] == if v.conversations[k].id == id
      then v.conversations[k].(messages := v.conversations[k].messages + [userMessage, answer])
      else v.conversations[k]
    {
      if v.conversations[k].id == id {
        assert v.conversations[k].messages + [userMessage] + [answer] == v.conversations[k].messages + [userMessage, answer];
      }
    }
  }

  /**
   * A send that starts a new conversation and succeeds leaves it, unpinned
   * and with the creation time as its id, holding the user's message and
   * the answer; it takes the generated title only when the answer has text.
   * The conversations that were there keep their place and, unless one had
   * the very same id, their content.
   */
  lemma NewSendThenAnswer(v: View, userMessage: Message, now: nat, answer: Message, title: string)
    requires IsNew(v)
    ensures var r := Complete(StartSend(v, userMessage, now).conversations, Decimal(now), true, userMessage, answer, title);
      && |r| == |v.conversations| + 1
      && r[0] == Conversation(Decimal(now), if answer.content != "" then title else "New Conversation", [userMessage, answer], false)
      && forall k :: 0 < k < |r| && v.conversations[k - 1].id != Decimal(now) ==> r[k] == v.conversations[k - 1]
  {
    var s := StartSend(v, userMessage, now).conversations;
    var r := Complete(s, Decimal(now), true, userMessage, answer, title);
    forall k | 0 < k < |r| && v.conversations[k - 1].id != Decimal(now) ensures r[k] == v.conversations[k - 1] {
      assert s[k] == v.conversations[k - 1];
    }
  }

  // ---------------------------------------------------------------------
  // The start of an image generation
  // ---------------------------------------------------------------------

  /** `Image: ${prompt.substring(0, 20)}...`. */
  function ImageTitle(prompt: string): string
  {
    "Image: " + prompt[..if |prompt| < 20 then |prompt| else 20] + "..."
  }

  /** `conversations.find(c => c.id === id)`: the first entry with the id, if any. */
  function FindConversation(cs: seq<Conversation>, id: string): (r: Option<nat>)
    ensures r.Some? ==>
      && r.value < |cs| && cs[r.value].id == id
      && forall k :: 0 <= k < r.value ==> cs[k].id != id
    ensures r.None? ==> forall k :: 0 <= k < |cs| ==> cs[k].id != id
  {
    FirstIndex(cs, (c: Conversation) => c.id == id)
  }

  /**
   * The optimistic update of `handleImageGeneration`, or `None` where it
   * reports that the open conversation cannot be found and changes nothing.
   * A new conversation is titled after the prompt. In an open conversation
   * every entry with its id is replaced by one copy of the first such entry
   * with the user's message appended.
   */
  function StartImage(v: View, userMessage: Message, now: nat, prompt: string): (r: Option<View>)
    ensures IsNew(v) ==> r == Some(View([Conversation(Decimal(now), ImageTitle(prompt), [userMessage], false)] + v.conversations, Some(Decimal(now))))
    ensures !IsNew(v) ==> (r.None? <==> forall k :: 0 <= k < |v.conversations| ==> v.conversations[k].id != v.current.value)
    ensures !IsNew(v) && r.Some? ==>
      var cs := v.conversations;
      var c := cs[FindConversation(cs, v.current.value).value];
      && r.value.current == v.current
      && |r.value.conversations| == |cs|
      && forall k :: 0 <= k < |cs| ==>
        r.value.conversations[k] == if cs[k].id == v.current.value then c.(messages := c.messages + [userMessage]) else cs[k]
  {
    if IsNew(v) then
      var id := Decimal(now);
      Some(View([Conversation(id, ImageTitle(prompt), [userMessage], false)] + v.conversations, Some(id)))
    else
      var cs := v.conversations;
      var id := v.current.value;
      match FindConversation(cs, id)
      case None => None
      case Some(f) =>
        var updated := cs[f].(messages := cs[f].messages + [userMessage]);
        Some(View(seq(|cs|, k requires 0 <= k < |cs| => if cs[k].id == id then updated else cs[k]), v.current))
  }

  /**
   * In an open conversation whose id no other entry shares, the image path
   * makes the same optimistic update as sending a message.
   */
  lemma ImageStartLikeSend(v: View, userMessage: Message, now: nat, prompt: string, f: nat)
    requires !IsNew(v)
    requires f < |v.conversations| && v.conversations[f].id == v.current.value
    requires forall k :: 0 <= k < |v.conversations| && k != f ==> v.conversations[k].id != v.current.value
    ensures StartImage(v, userMessage, now, prompt) == Some(StartSend(v, userMessage, now))
  {
    var r := StartImage(v, userMessage, now, prompt).value;
    var s := StartSend(v, userMessage, now);
    assert FindConversation(v.conversations, v.current.value) == Some(f);
    forall k | 0 <= k < |v.conversations| ensures r.conversations[k] == s.conversations[k] {
      if v.conversations[k].id == v.current.value {
        assert k == f;
      }
    }
    assert r.conversations == s.conversations;
  }

  /**
   * A failed image request in an open conversation gives every entry with
   * its id the messages of the first such entry: the list as it was when
   * the id is not shared.
   */
  lemma ImageSendThenRevert(v: View, userMessage: Message, now: nat, prompt: string)
    requires !IsNew(v) && StartImage(v, userMessage, now, prompt).Some?
    ensures var cs := v.conversations;
      var c := cs[FindConversation(cs, v.current.value).value];
      var r := DropLast(StartImage(v, userMessage, now, prompt).value.conversations, v.current.value);
      && |r| == |cs|
      && forall k :: 0 <= k < |cs| ==> r[k] == if cs[k].id == v.current.value then c else cs[k]
  {
    var cs := v.conversations;
    var c := cs[FindConversation(cs, v.current.value).value];
    var s := StartImage(v, userMessage, now, prompt).value.conversations;
    var r := DropLast(s, v.current.value);
    forall k | 0 <= k < |cs| ensures r[k] == if cs[k].id == v.current.value then c else cs[k] {
      if cs[k].id == v.current.value {
        assert s[k].messages[..|s[k].messages| - 1] == c.messages;
      }
    }
  }

  /**
   * A failed image request that started a new conversation leaves it in the
   * list, empty and titled after the prompt.
   */
  lemma ImageNewSendThenRevert(v: View, userMessage: Message, now: nat, prompt: string)
    requires IsNew(v)
    requires forall k :: 0 <= k < |v.conversations| ==> v.conversations[k].id != Decimal(now)
    ensures var r := DropLast(StartImage(v, userMessage, now, prompt).value.conversations, Decimal(now));
      r == [Conversation(Decimal(now), ImageTitle(prompt), [], false)] + v.conversations
  {
    var s := StartImage(v, userMessage, now, prompt).value.conversations;
    var r := DropLast(s, Decimal(now));
    forall k | 0 < k < |r| ensures r[k] == v.conversations[k - 1] {
      assert s[k] == v.conversations[k - 1];
    }
    assert s[0].messages[..0] == [];
  }

  // ---------------------------------------------------------------------
  // Cited sources: `new Map(chunks.map(c => [c.web.uri, c])).values()`
  // ---------------------------------------------------------------------

  /** Where the source with this URI sits, if anywhere: the `Map`'s lookup by key. */
  function IndexOfUri(acc: seq<GroundingChunk>, uri: string): (r: Option<nat>)
    ensures r.Some? ==>
      && r.value < |acc| && acc[r.value].uri == uri
      && forall k :: 0 <= k < r.value ==> acc[k].uri != uri
    ensures r.None? ==> forall k :: 0 <= k < |acc| ==> acc[k].uri != uri
  {
    FirstIndex(acc, (c: GroundingChunk) => c.uri == uri)
  }

  /** `map.set(c.uri, c)`: a known URI keeps its place and takes the new value; a new one goes last. */
  function Put(acc: seq<GroundingChunk>, c: GroundingChunk): seq<GroundingChunk>
  {
    match IndexOfUri(acc, c.uri)
    case Some(k) => acc[k := c]
    case None => acc + [c]
  }

  /** The values of a `Map` keyed by URI, built from the chunks in order. */
  function Dedup(chunks: seq<GroundingChunk>): seq<GroundingChunk>
  {
    if chunks == [] then [] else Put(Dedup(chunks[..|chunks| - 1]), chunks[|chunks| - 1])
  }

  /** The URIs of some chunks, in order. */
  function Uris(chunks: seq<GroundingChunk>): (r: seq<string>)
    ensures |r| == |chunks|
    ensures forall k :: 0 <= k < |r| ==> r[k] == chunks[k].uri
  {
    seq(|chunks|, k requires 0 <= k < |chunks| => chunks[k].uri)
  }

  /** The distinct URIs of some chunks, in the order they first appear. */
  function FirstUris(chunks: seq<GroundingChunk>): (r: seq<string>)
    ensures forall u :: u in r <==> u in Uris(chunks)
  {
    if chunks == [] then []
    else
      var p := chunks[..|chunks| - 1];
      var r := FirstUris(p);
      var c := chunks[|chunks| - 1];
      assert Uris(chunks) == Uris(p) + [c.uri];
      if c.uri in r then r else r + [c.uri]
  }

  /** The last chunk with this URI. */
  function LastFor(chunks: seq<GroundingChunk>, uri: string): (c: GroundingChunk)
    requires uri in Uris(chunks)
    ensures c in chunks && c.uri == uri
  {
    var p := chunks[..|chunks| - 1];
    var last := chunks[|chunks| - 1];
    assert Uris(chunks) == Uris(p) + [last.uri];
    if last.uri == uri then last else LastFor(p, uri)
  }

  predicate DistinctUris(acc: seq<GroundingChunk>)
  {
    forall i, j :: 0 <= i < j < |acc| ==> acc[i].uri != acc[j].uri
  }

  /**
   * The sources kept are one per URI: the URIs in the order they first
   * appear, each with the last chunk seen for it.
   */
  lemma {:induction false} DedupSpec(chunks: seq<GroundingChunk>)
    ensures Uris(Dedup(chunks)) == FirstUris(chunks)
    ensures forall k :: 0 <= k < |Dedup(chunks)| ==> Dedup(chunks)[k] == LastFor(chunks, Dedup(chunks)[k].uri)
    decreases |chunks|
  {
    if chunks != [] {
      var p := chunks[..|chunks| - 1];
      var c := chunks[|chunks| - 1];
      assert chunks == p + [c];
      DedupSpec(p);
      FirstUrisDistinct(p);
      LastChunk(p, c);
      if IndexOfUri(Dedup(p), c.uri).Some? {
        PutKnown(p, c);
      } else {
        PutNew(p, c);
      }
    }
  }

  /** How `Dedup`, `Uris`, `FirstUris` and `LastFor` take one more chunk. */
  lemma LastChunk(p: seq<GroundingChunk>, c: GroundingChunk)
    ensures Dedup(p + [c]) == Put(Dedup(p), c)
    ensures Uris(p + [c]) == Uris(p) + [c.uri]
    ensures FirstUris(p + [c]) == if c.uri in FirstUris(p) then FirstUris(p) else FirstUris(p) + [c.uri]
    ensures forall u :: u in Uris(p + [c]) ==> LastFor(p + [c], u) == if u == c.uri then c else LastFor(p, u)
  {
    assert (p + [c])[..|p|] == p;
  }

  /** The step of `DedupSpec` for a chunk whose URI was met before: it takes that URI's place. */
  lemma PutKnown(p: seq<GroundingChunk>, c: GroundingChunk)
    requires Uris(Dedup(p)) == FirstUris(p)
    requires forall k :: 0 <= k < |Dedup(p)| ==> Dedup(p)[k] == LastFor(p, Dedup(p)[k].uri)
    requires forall i, j :: 0 <= i < j < |FirstUris(p)| ==> FirstUris(p)[i] != FirstUris(p)[j]
    requires IndexOfUri(Dedup(p), c.uri).Some?
    ensures Uris(Put(Dedup(p), c)) == FirstUris(p)
    ensures c.uri in FirstUris(p)
    ensures forall k :: 0 <= k < |Put(Dedup(p), c)| ==>
      Put(Dedup(p), c)[k] == if Put(Dedup(p), c)[k].uri == c.uri then c else LastFor(p, Put(Dedup(p), c)[k].uri)
  {
    var a := Dedup(p);
    var us := FirstUris(p);
    var k0 := IndexOfUri(a, c.uri).value;
    var d := a[k0 := c];
    assert Uris(d) == us;
    forall k | 0 <= k < |d| ensures d[k] == if d[k].uri == c.uri then c else LastFor(p, d[k].uri) {
      if k != k0 {
        assert a[k].uri == us[k] && us[k] != us[k0];
      }
    }
  }

  /** The step of `DedupSpec` for a chunk with a URI not met before: it goes last. */
  lemma PutNew(p: seq<GroundingChunk>, c: GroundingChunk)
    requires Uris(Dedup(p)) == FirstUris(p)
    requires forall k :: 0 <= k < |Dedup(p)| ==> Dedup(p)[k] == LastFor(p, Dedup(p)[k].uri)
    requires IndexOfUri(Dedup(p), c.uri).None?
    ensures Uris(Put(Dedup(p), c)) == FirstUris(p) + [c.uri]
    ensures c.uri !in FirstUris(p)
    ensures forall k :: 0 <= k < |Put(Dedup(p), c)| ==>
      Put(Dedup(p), c)[k] == if Put(Dedup(p), c)[k].uri == c.uri then c else LastFor(p, Put(Dedup(p), c)[k].uri)
  {
    var a := Dedup(p);
    var us := FirstUris(p);
    var d := a + [c];
    assert c.uri !in us;
    assert Uris(d) == us + [c.uri];
    forall k | 0 <= k < |a| ensures d[k] == LastFor(p, d[k].uri) && d[k].uri != c.uri {
      assert a[k].uri == us[k];
    }
  }

  lemma {:induction false} FirstUrisDistinct(chunks: seq<GroundingChunk>)
    ensures forall i, j :: 0 <= i < j < |FirstUris(chunks)| ==> FirstUris(chunks)[i] != FirstUris(chunks)[j]
    decreases |chunks|
  {
    if chunks != [] {
      FirstUrisDistinct(chunks[..|chunks| - 1]);
    }
  }

  /** After the merge the URIs are pairwise distinct, and exactly the URIs met are present. */
  lemma DedupDistinct(chunks: seq<GroundingChunk>)
    ensures DistinctUris(Dedup(chunks))
    ensures forall u :: u in Uris(Dedup(chunks)) <==> u in Uris(chunks)
  {
    DedupSpec(chunks);
    FirstUrisDistinct(chunks);
    var d := Dedup(chunks);
    forall i, j | 0 <= i < j < |d| ensures d[i].uri != d[j].uri {
      assert Uris(d)[i] == d[i].uri && Uris(d)[j] == d[j].uri;
    }
  }

  /** A list that already has distinct URIs is its own `Map`. */
  lemma {:induction false} DedupOfDistinct(acc: seq<GroundingChunk>)
    requires DistinctUris(acc)
    ensures Dedup(acc) == acc
    decreases |acc|
  {
    if acc != [] {
      var p := acc[..|acc| - 1];
      DedupOfDistinct(p);
      assert IndexOfUri(p, acc[|acc| - 1].uri) == None;
    }
  }

  /**
   * Merging new sources into the kept ones, again and again, gives what one
   * `Map` over all sources in arrival order gives.
   */
  lemma {:induction false} MergeAgain(a: seq<GroundingChunk>, b: seq<GroundingChunk>)
    ensures Dedup(Dedup(a) + b) == Dedup(a + b)
    decreases |b|
  {
    if b == [] {
      assert Dedup(a) + b == Dedup(a) && a + b == a;
      DedupDistinct(a);
      DedupOfDistinct(Dedup(a));
    } else {
      var bp := b[..|b| - 1];
      MergeAgain(a, bp);
      assert (Dedup(a) + b)[..|Dedup(a) + b| - 1] == Dedup(a) + bp;
      assert (a + b)[..|a + b| - 1] == a + bp;
    }
  }

  // ---------------------------------------------------------------------
  // The streamed answer
  // ---------------------------------------------------------------------

  /** A source as the API reports it; only those with a URI are kept. */
  datatype RawChunk = RawChunk(uri: Option<string>, title: Option<string>, publishedDate: Option<PublishedDate>)

  /** One streamed piece: its text, if any, and the sources of its first candidate. */
  datatype StreamChunk = StreamChunk(text: Option<string>, sources: seq<RawChunk>)

  /** The sources with a string URI, copied to plain records. */
  function Sanitize(raw: seq<RawChunk>): (r: seq<GroundingChunk>)
    ensures |r| <= |raw|
  {
    if raw == [] then []
    else
      (if raw[0].uri.Some? then [GroundingChunk(raw[0].uri.value, raw[0].title, raw[0].publishedDate)] else [])
      + Sanitize(raw[1..])
  }

  /** `chunk.text ?? ''`. */
  function TextOf(c: StreamChunk): string
  {
    if c.text.Some? then c.text.value else ""
  }

  /** The texts of some pieces, in order. */
  function Texts(cs: seq<StreamChunk>): string
  {
    if cs == [] then "" else Texts(cs[..|cs| - 1]) + TextOf(cs[|cs| - 1])
  }

  /** The kept sources of some pieces, in order. */
  function Sources(cs: seq<StreamChunk>): seq<GroundingChunk>
  {
    if cs == [] then [] else Sources(cs[..|cs| - 1]) + Sanitize(cs[|cs| - 1].sources)
  }

  /** How many pieces are taken in: those before the first check that finds the stop flag set. */
  function Received(stopped: seq<bool>): (n: nat)
    ensures n <= |stopped|
    ensures forall k :: 0 <= k < n ==> !stopped[k]
    ensures n < |stopped| ==> stopped[n]
  {
    if stopped == [] || stopped[0] then 0 else 1 + Received(stopped[1..])
  }

  /**
   * The streaming loop of `handleSendMessage`. `stopped[k]` is the stop
   * flag as the loop finds it before piece `k`. The answer's text is the
   * pieces' texts in order, and its sources are one `Map` over all their
   * sources, up to the first stop.
   */
  method AccumulateStream(chunks: seq<StreamChunk>, stopped: seq<bool>) returns (answer: Message)
    requires |stopped| == |chunks|
    ensures var n := Received(stopped);
      answer == Message(Model, Texts(chunks[..n]), None, None, Some(Dedup(Sources(chunks[..n]))))
  {
    answer := Message(Model, "", None, None, Some([]));
    var k := 0;
    while k < |chunks|
      invariant k <= Received(stopped)
      invariant answer == Message(Model, Texts(chunks[..k]), None, None, Some(Dedup(Sources(chunks[..k]))))
    {
      if stopped[k] {
        break;
      }
      var chunkText := TextOf(chunks[k]);
      var sanitized := Sanitize(chunks[k].sources);
      OneMore(chunks, k);
      answer := answer.(content := answer.content + chunkText);
      if |sanitized| > 0 {
        var all := answer.groundingChunks.value + sanitized;
        MergeAgain(Sources(chunks[..k]), sanitized);
        answer := answer.(groundingChunks := Some(Dedup(all)));
      } else {
        assert Sources(chunks[..k]) + sanitized == Sources(chunks[..k]);
      }
      k := k + 1;
    }
  }

  /** Taking in piece `k` adds its text and its sources. */
  lemma OneMore(chunks: seq<StreamChunk>, k: nat)
    requires k < |chunks|
    ensures Texts(chunks[..k + 1]) == Texts(chunks[..k]) + TextOf(chunks[k])
    ensures Sources(chunks[..k + 1]) == Sources(chunks[..k]) + Sanitize(chunks[k].sources)
  {
    assert chunks[..k + 1][..k] == chunks[..k];
  }

  /** The answer's text is every received piece's text, in order. */
  lemma {:induction false} TextsAppend(a: seq<StreamChunk>, b: seq<StreamChunk>)
    ensures Texts(a + b) == Texts(a) + Texts(b)
    decreases |b|
  {
    if b == [] {
      assert a + b == a;
    } else {
      var bp := b[..|b| - 1];
      TextsAppend(a, bp);
      assert (a + b)[..|a + b| - 1] == a + bp;
      assert (a + b)[|a + b| - 1] == b[|b| - 1];
    }
  }
}
