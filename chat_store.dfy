/** The chat state store: contacts, conversations, the selection and the set of new contacts,
    changed in place by receiving a message, selecting a contact and sending a message. */
module ChatStore {
  import opened ChatTypes
  import opened ChatViews
  import opened JsStrings

  /** The sender name of outbound messages. */
  const You: string := "You"

  const Minute: int := 1000 * 60
  const Hour: int := 1000 * 60 * 60

  /** The seed contacts of `initializeMockData`, relative to the clock reading `now`: three
      distinct names, most recent first, no negative unread count, every last message in the past. */
  function SeedContacts(now: int): (r: seq<Contact>)
    ensures |r| == 3 && UniqueNames(r) && ByRecency(r)
    ensures Names(r) == {"Алёна", "Марина", "Иван"}
    ensures forall i :: 0 <= i < |r| ==> r[i].unreadCount >= 0 && r[i].lastMessageTime < now
  {
    var r := [ Contact("Алёна", "Привет! Как дела?", 2, now - 30 * Minute),
      Contact("Марина", "Не забудь про встречу завтра", 0, now - 2 * Hour),
      Contact("Иван", "Документы готовы", 1, now - 24 * Hour) ];
    assert r[0].name == "Алёна" && r[1].name == "Марина" && r[2].name == "Иван";
    r
  }

  /** The seed conversations of `initializeMockData`: one per seed contact, each of three
      messages, from the contact, from "You" and from the contact again, in increasing time
      order and all in the past. */
  function SeedMessages(now: int): (r: map<string, seq<ChatMessage>>)
    ensures r.Keys == Names(SeedContacts(now))
    ensures forall n :: n in r ==>
      |r[n]| == 3 && r[n][0].from == n && r[n][1].from == You && r[n][2].from == n
    ensures forall n :: n in r ==>
      r[n][0].timestamp < r[n][1].timestamp < r[n][2].timestamp < now
  {
    map[
      "Алёна" := [
        ChatMessage("Алёна", "Привет!", now - Hour),
        ChatMessage(You, "Привет! Как дела?", now - 45 * Minute),
        ChatMessage("Алёна", "Хорошо, спасибо! А у тебя?", now - 30 * Minute)],
      "Марина" := [
        ChatMessage("Марина", "Привет!", now - 3 * Hour),
        ChatMessage(You, "Привет, Марина!", now - 9_000_000),          // 2.5 hours
        ChatMessage("Марина", "Не забудь про встречу завтра", now - 2 * Hour)],
      "Иван" := [
        ChatMessage("Иван", "Добрый день!", now - 25 * Hour),
        ChatMessage(You, "Добрый день, Иван!", now - 88_200_000),      // 24.5 hours
        ChatMessage("Иван", "Документы готовы", now - 24 * Hour)]
    ]
  }

  /** The seed contacts are already in recency order. */
  lemma SeedSorted(now: int)
    ensures SortedContacts(SeedContacts(now)) == SeedContacts(now)
  {
    var cs := SeedContacts(now);
    assert ByRecency(cs);
    SortedContactsUnique(cs, cs);
  }

  /** Three seed messages are unread. */
  lemma SeedUnread(now: int)
    ensures TotalUnreadCount(SeedContacts(now)) == 3
  {
    var cs := SeedContacts(now);
    TotalUnreadIsSum(cs);
    assert SumUnread(cs[2..]) == 1;
    assert SumUnread(cs[1..]) == 1;
  }

  /** The time of each seed contact's last message is that of the last message of its
      conversation, and so is the text for Марина and Иван; Алёна's `lastMessage` is the text
      of her thread's second message, not of its last. */
  lemma SeedSummaries(now: int)
    ensures forall i :: 0 <= i < 3 ==>
      var c := SeedContacts(now)[i];
      var conv := SeedMessages(now)[c.name];
      conv != [] && conv[|conv| - 1].timestamp == c.lastMessageTime
        && (conv[|conv| - 1].message == c.lastMessage <==> i != 0)
  {
  }

  class Store {
    var contacts: seq<Contact>
    var messages: map<string, seq<ChatMessage>>
    var selectedContact: Option<string>
    var newContacts: set<string>

    /** The store's invariant, StoreInvariant of its four fields. */
    ghost predicate Valid()
      reads this
    {
      StoreInvariant(contacts, messages, selectedContact, newContacts)
    }

    /** The store as `initializeMockData` leaves it, nothing selected. */
    constructor (now: int)
      ensures Valid()
      ensures contacts == SeedContacts(now) && messages == SeedMessages(now)
      ensures selectedContact == None && newContacts == {}
    {
      contacts := SeedContacts(now);
      messages := SeedMessages(now);
      selectedContact := None;
      newContacts := {};
      new;
      assert Names(contacts) == {"Алёна", "Марина", "Иван"} by {
        assert contacts[0].name == "Алёна" && contacts[1].name == "Марина" && contacts[2].name == "Иван";
      }
    }

    /** Pushes `m` onto the conversation with `name`, creating that conversation empty first
        when there is none; the open thread grows by `m` exactly when it is that conversation. */
    method AppendMessage(name: string, m: ChatMessage)
      modifies this
      ensures messages == old(messages)[name := old(Conversation(messages, name)) + [m]]
      ensures contacts == old(contacts) && selectedContact == old(selectedContact)
      ensures newContacts == old(newContacts)
      ensures CurrentMessages(selectedContact, messages)
        == if Truthy(selectedContact) && selectedContact.value == name
           then old(CurrentMessages(selectedContact, messages)) + [m]
           else old(CurrentMessages(selectedContact, messages))
    {
      CurrentMessagesAfterAppend(selectedContact, messages, name, m);
      if name !in messages {
        messages := messages[name := []];
      }
      messages := messages[name := messages[name] + [m]];
    }

    /** `handleIncomingMessage(from, message)` at the clock reading `now`. */
    method HandleIncomingMessage(from: string, message: string, now: int)
      requires Valid()
      modifies this
      ensures Valid()
      ensures selectedContact == old(selectedContact)
      ensures messages == old(messages)[from := old(Conversation(messages, from)) + [ChatMessage(from, message, now)]]
      ensures old(FindContact(contacts, from)).Some? ==>
        var i := old(FindContact(contacts, from)).value;
        var bump := if old(selectedContact) == Some(from) then 0 else 1;
        contacts == old(contacts)[i := Contact(from, message, old(contacts[i].unreadCount) + bump, now)]
        && newContacts == old(newContacts)
      ensures old(FindContact(contacts, from)).None? ==>
        contacts == old(contacts) + [Contact(from, message, if old(selectedContact) == Some(from) then 0 else 1, now)]
        && newContacts == old(newContacts) + {from}
      ensures TotalUnreadCount(contacts)
        == old(TotalUnreadCount(contacts)) + (if old(selectedContact) == Some(from) then 0 else 1)
      ensures CurrentMessages(selectedContact, messages)
        == if Truthy(selectedContact) && selectedContact.value == from
           then old(CurrentMessages(selectedContact, messages)) + [ChatMessage(from, message, now)]
           else old(CurrentMessages(selectedContact, messages))
      ensures old(SelectedHasNoUnread(contacts, selectedContact)) ==> SelectedHasNoUnread(contacts, selectedContact)
    {
      var chatMessage := ChatMessage(from, message, now);
      ghost var messages0 := messages;
      AppendMessage(from, chatMessage);

      TotalUnreadIsSum(contacts);
      var existing := FindContact(contacts, from);
      if existing.Some? {
        var i := existing.value;
        var contact := contacts[i].(lastMessage := message, lastMessageTime := now);
        if selectedContact != Some(from) {
          contact := contact.(unreadCount := contact.unreadCount + 1);
        }
        SumUnreadUpdate(contacts, i, contact);
        UpdateKeepsInvariant(contacts, messages0, messages, selectedContact, newContacts, newContacts, i, contact);
        if SelectedHasNoUnread(contacts, selectedContact) {
          UpdateKeepsNoUnread(contacts, selectedContact, i, contact);
        }
        contacts := contacts[i := contact];
      } else {
        var contact := Contact(from, message, if selectedContact == Some(from) then 0 else 1, now);
        SumUnreadAppend(contacts, contact);
        AppendKeepsInvariant(contacts, messages0, messages, selectedContact, newContacts, contact);
        if SelectedHasNoUnread(contacts, selectedContact) {
          AppendKeepsNoUnread(contacts, selectedContact, contact);
        }
        contacts := contacts + [contact];
        newContacts := newContacts + {from};
      }
      TotalUnreadIsSum(contacts);
    }

    /** `onmessage` after decoding: a payload that did not decode (`None`) leaves the store as it
        was; a decoded one is handed to `handleIncomingMessage`. */
    method OnMessage(event: Option<IncomingEvent>, now: int)
      requires Valid()
      modifies this
      ensures Valid()
      ensures event.None? ==> unchanged(this)
      ensures event.Some? ==>
        var from, message := event.value.from, event.value.message;
        selectedContact == old(selectedContact)
        && messages == old(messages)[from := old(Conversation(messages, from)) + [ChatMessage(from, message, now)]]
      ensures event.Some? && old(FindContact(contacts, event.value.from)).Some? ==>
        var from, message := event.value.from, event.value.message;
        var i := old(FindContact(contacts, from)).value;
        var bump := if old(selectedContact) == Some(from) then 0 else 1;
        contacts == old(contacts)[i := Contact(from, message, old(contacts[i].unreadCount) + bump, now)]
        && newContacts == old(newContacts)
      ensures event.Some? && old(FindContact(contacts, event.value.from)).None? ==>
        var from, message := event.value.from, event.value.message;
        contacts == old(contacts) + [Contact(from, message, if old(selectedContact) == Some(from) then 0 else 1, now)]
        && newContacts == old(newContacts) + {from}
    {
      if event.Some? {
        HandleIncomingMessage(event.value.from, event.value.message, now);
      }
    }

    /** `selectContact(contactName)`; `None` stands for `null`. */
    method SelectContact(contactName: Option<string>)
      requires Valid()
      modifies this
      ensures Valid()
      ensures selectedContact == contactName && messages == old(messages)
      ensures Truthy(contactName) && old(FindContact(contacts, contactName.value)).Some? ==>
        var i := old(FindContact(contacts, contactName.value)).value;
        contacts == old(contacts)[i := old(contacts[i]).(unreadCount := 0)]
        && newContacts == old(newContacts) - {contactName.value}
      ensures !(Truthy(contactName) && old(FindContact(contacts, contactName.value)).Some?) ==>
        contacts == old(contacts) && newContacts == old(newContacts)
      ensures CurrentMessages(selectedContact, messages)
        == if Truthy(contactName) then Conversation(messages, contactName.value) else []
    {
      selectedContact := contactName;
      if contactName.Some? && contactName.value != "" {
        var found := FindContact(contacts, contactName.value);
        if found.Some? {
          var i := found.value;
          SelectKeepsInvariant(contacts, messages, old(selectedContact), contactName, newContacts, i);
          contacts := contacts[i := contacts[i].(unreadCount := 0)];
          newContacts := newContacts - {contactName.value};
        }
      }
    }

    /** `selectContact` as its comments describe it ("reset unread count for selected contact",
        "remove from new contacts when selected"): the reset is guarded by `contactName !== null`
        instead of the truthiness test, so it also applies to a contact named "". With it the
        selected contact has nothing unread, whatever its name. */
    method SelectContactAnyName(contactName: Option<string>)
      requires Valid()
      modifies this
      ensures Valid()
      ensures SelectedHasNoUnread(contacts, selectedContact)
      ensures selectedContact == contactName && messages == old(messages)
      ensures contactName.Some? && old(FindContact(contacts, contactName.value)).Some? ==>
        var i := old(FindContact(contacts, contactName.value)).value;
        contacts == old(contacts)[i := old(contacts[i]).(unreadCount := 0)]
        && newContacts == old(newContacts) - {contactName.value}
      ensures !(contactName.Some? && old(FindContact(contacts, contactName.value)).Some?) ==>
        contacts == old(contacts) && newContacts == old(newContacts)
    {
      selectedContact := contactName;
      if contactName.Some? {
        var found := FindContact(contacts, contactName.value);
        if found.Some? {
          var i := found.value;
          SelectKeepsInvariant(contacts, messages, old(selectedContact), contactName, newContacts, i);
          ZeroedIsOnlyOfName(contacts, i);
          contacts := contacts[i := contacts[i].(unreadCount := 0)];
          newContacts := newContacts - {contactName.value};
        }
      }
    }

    /** `sendMessage(message)` at the clock reading `now`. */
    method SendMessage(message: string, now: int)
      requires Valid()
      modifies this
      ensures Valid()
      ensures selectedContact == old(selectedContact) && newContacts == old(newContacts)
      ensures !Truthy(selectedContact) || AllWhiteSpace(message) ==>
        contacts == old(contacts) && messages == old(messages)
      ensures Truthy(selectedContact) && !AllWhiteSpace(message) ==>
        var name := selectedContact.value;
        messages == old(messages)[name := old(Conversation(messages, name)) + [ChatMessage(You, Trim(message), now)]]
        && (old(FindContact(contacts, name)).Some? ==>
              var i := old(FindContact(contacts, name)).value;
              contacts == old(contacts)[i := old(contacts[i]).(lastMessage := Trim(message), lastMessageTime := now)])
        && (old(FindContact(contacts, name)).None? ==> contacts == old(contacts))
      ensures |contacts| == old(|contacts|)
      ensures forall i :: 0 <= i < |contacts| ==> contacts[i].unreadCount == old(contacts[i].unreadCount)
      ensures CurrentMessages(selectedContact, messages)
        == if Truthy(selectedContact) && !AllWhiteSpace(message)
           then old(CurrentMessages(selectedContact, messages)) + [ChatMessage(You, Trim(message), now)]
           else old(CurrentMessages(selectedContact, messages))
      ensures old(SelectedHasNoUnread(contacts, selectedContact)) ==> SelectedHasNoUnread(contacts, selectedContact)
    {
      if !Truthy(selectedContact) || Trim(message) == "" {
        return;
      }
      var name := selectedContact.value;
      var chatMessage := ChatMessage(You, Trim(message), now);
      ghost var messages0 := messages;
      AppendMessage(name, chatMessage);

      var found := FindContact(contacts, name);
      if found.Some? {
        var i := found.value;
        var contact := contacts[i].(lastMessage := Trim(message), lastMessageTime := now);
        UpdateKeepsInvariant(contacts, messages0, messages, selectedContact, newContacts, newContacts, i, contact);
        if SelectedHasNoUnread(contacts, selectedContact) {
          UpdateKeepsNoUnread(contacts, selectedContact, i, contact);
        }
        contacts := contacts[i := contact];
      } else {
        assert Names(contacts) <= messages0.Keys <= messages.Keys;
      }
    }
  }

  /** The store's invariant on its four parts: contact names are unique, new contacts and
      conversations belong to contacts that exist, unread counts are never negative, and the
      contact whose non-empty name is selected has nothing unread. */
  ghost predicate StoreInvariant(contacts: seq<Contact>, messages: map<string, seq<ChatMessage>>,
                                 selected: Option<string>, newContacts: set<string>)
  {
    UniqueNames(contacts)
    && newContacts <= Names(contacts)
    && Names(contacts) <= messages.Keys
    && (forall i :: 0 <= i < |contacts| ==> contacts[i].unreadCount >= 0)
    && (Truthy(selected) ==>
          forall i :: 0 <= i < |contacts| && contacts[i].name == selected.value ==>
            contacts[i].unreadCount == 0)
  }

  /** The selected contact, whatever its name (even ""), has nothing unread. */
  ghost predicate SelectedHasNoUnread(contacts: seq<Contact>, selected: Option<string>) {
    selected.Some? ==>
      forall i :: 0 <= i < |contacts| && contacts[i].name == selected.value ==> contacts[i].unreadCount == 0
  }

  /** Changing one contact, keeping its name and, when that name is selected, a zero count,
      keeps the selected contact free of unread messages. */
  lemma UpdateKeepsNoUnread(contacts: seq<Contact>, selected: Option<string>, i: nat, c: Contact)
    requires SelectedHasNoUnread(contacts, selected)
    requires i < |contacts| && c.name == contacts[i].name
    requires selected == Some(c.name) ==> c.unreadCount == 0
    ensures SelectedHasNoUnread(contacts[i := c], selected)
  {
  }

  /** Appending a contact with a zero count when its name is selected keeps the selected contact
      free of unread messages. */
  lemma AppendKeepsNoUnread(contacts: seq<Contact>, selected: Option<string>, c: Contact)
    requires SelectedHasNoUnread(contacts, selected)
    requires selected == Some(c.name) ==> c.unreadCount == 0
    ensures SelectedHasNoUnread(contacts + [c], selected)
  {
    var r := contacts + [c];
    assert forall j :: 0 <= j < |contacts| ==> r[j] == contacts[j];
  }

  /** With unique names, zeroing the count of contact `i` leaves no contact of its name with
      anything unread. */
  lemma ZeroedIsOnlyOfName(contacts: seq<Contact>, i: nat)
    requires UniqueNames(contacts) && i < |contacts|
    ensures SelectedHasNoUnread(contacts[i := contacts[i].(unreadCount := 0)], Some(contacts[i].name))
  {
  }

  /** Replacing one contact by one of the same name, with an unread count that is not negative
      and is 0 when that name is selected, keeps the invariant; so does adding conversations
      and dropping new contacts. */
  lemma UpdateKeepsInvariant(contacts: seq<Contact>, messages: map<string, seq<ChatMessage>>,
                             messages': map<string, seq<ChatMessage>>, selected: Option<string>,
                             newContacts: set<string>, newContacts': set<string>, i: nat, c: Contact)
    requires StoreInvariant(contacts, messages, selected, newContacts)
    requires messages.Keys <= messages'.Keys && newContacts' <= newContacts
    requires i < |contacts| && c.name == contacts[i].name && c.unreadCount >= 0
    requires Truthy(selected) && selected.value == c.name ==> c.unreadCount == 0
    ensures StoreInvariant(contacts[i := c], messages', selected, newContacts')
  {
    SameNamesAfterUpdate(contacts, contacts[i := c], i);
  }

  /** Appending a contact with a name not yet used, whose conversation exists, with an unread
      count that is not negative and is 0 when that name is selected, keeps the invariant when
      the name also becomes new. */
  lemma AppendKeepsInvariant(contacts: seq<Contact>, messages: map<string, seq<ChatMessage>>,
                             messages': map<string, seq<ChatMessage>>, selected: Option<string>,
                             newContacts: set<string>, c: Contact)
    requires StoreInvariant(contacts, messages, selected, newContacts)
    requires messages.Keys <= messages'.Keys && c.name in messages'
    requires c.name !in Names(contacts) && c.unreadCount >= 0
    requires Truthy(selected) && selected.value == c.name ==> c.unreadCount == 0
    ensures StoreInvariant(contacts + [c], messages', selected, newContacts + {c.name})
  {
    NamesAfterAppend(contacts, c);
    var r := contacts + [c];
    assert forall j :: 0 <= j < |contacts| ==> r[j] == contacts[j];
  }

  /** Selecting an existing contact by its non-empty name and zeroing its unread count keeps the
      invariant, whatever was selected before, when that name stops being new. */
  lemma SelectKeepsInvariant(contacts: seq<Contact>, messages: map<string, seq<ChatMessage>>,
                             selected: Option<string>, selected': Option<string>,
                             newContacts: set<string>, i: nat)
    requires StoreInvariant(contacts, messages, selected, newContacts)
    requires i < |contacts| && selected' == Some(contacts[i].name)
    ensures StoreInvariant(contacts[i := contacts[i].(unreadCount := 0)], messages, selected',
                           newContacts - {contacts[i].name})
  {
    var r := contacts[i := contacts[i].(unreadCount := 0)];
    SameNamesAfterUpdate(contacts, r, i);
  }

  /** Changing one contact but not its name keeps the set of names, and their uniqueness. */
  lemma SameNamesAfterUpdate(before: seq<Contact>, after: seq<Contact>, i: nat)
    requires i < |before| == |after|
    requires after[i].name == before[i].name
    requires forall j :: 0 <= j < |before| && j != i ==> after[j] == before[j]
    ensures Names(after) == Names(before)
    ensures UniqueNames(before) ==> UniqueNames(after)
  {
    assert forall j :: 0 <= j < |before| ==> after[j].name == before[j].name;
  }

  /** Appending a contact whose name is new adds that name and keeps the names unique. */
  lemma NamesAfterAppend(cs: seq<Contact>, c: Contact)
    requires c.name !in Names(cs)
    ensures Names(cs + [c]) == Names(cs) + {c.name}
    ensures UniqueNames(cs) ==> UniqueNames(cs + [c])
  {
    var r := cs + [c];
    assert r[|cs|].name == c.name;
    forall n | n in Names(r) ensures n in Names(cs) + {c.name} {
      var j :| 0 <= j < |r| && r[j].name == n;
      if j < |cs| { assert r[j] == cs[j]; }
    }
    forall n | n in Names(cs) ensures n in Names(r) {
      var j :| 0 <= j < |cs| && cs[j].name == n;
      assert r[j] == cs[j];
    }
    if UniqueNames(cs) {
      forall j, k | 0 <= j < k < |r| ensures r[j].name != r[k].name {
        if k == |cs| {
          assert r[j] == cs[j];
          assert cs[j].name in Names(cs);
        } else {
          assert r[j] == cs[j] && r[k] == cs[k];
        }
      }
    }
  }

  /** A first message from "Ольга" on the seed state creates exactly one contact, with one
      unread message, and makes her new; selecting her then zeroes the count and she is no
      longer new. */
  method NewSenderScenario(now: int) returns (added: int, unread: int, isNew: bool,
                                              unreadAfterSelect: int, isNewAfterSelect: bool)
    ensures added == 1 && unread == 1 && isNew
    ensures unreadAfterSelect == 0 && !isNewAfterSelect
  {
    var store := new Store(now);
    assert "Ольга" !in Names(store.contacts) by {
      assert forall i :: 0 <= i < |store.contacts| ==> store.contacts[i].name != "Ольга";
    }
    store.HandleIncomingMessage("Ольга", "Привет!", now + 1);
    added := |store.contacts| - 3;
    unread := store.contacts[3].unreadCount;
    isNew := "Ольга" in store.newContacts;
    assert FindContact(store.contacts, "Ольга") == Some(3) by {
      assert forall i :: 0 <= i < 3 ==> store.contacts[i].name != "Ольга";
    }
    store.SelectContact(Some("Ольга"));
    unreadAfterSelect := store.contacts[3].unreadCount;
    isNewAfterSelect := "Ольга" in store.newContacts;
  }

  /** The empty name is falsy, so selecting a contact whose name is "" records the selection but
      neither zeroes its unread count nor removes it from the new contacts. */
  method EmptyNameSelectionScenario(now: int) returns (selected: Option<string>, unread: int, isNew: bool)
    ensures selected == Some("") && unread == 1 && isNew
  {
    var store := new Store(now);
    assert "" !in Names(store.contacts) by {
      assert forall i :: 0 <= i < |store.contacts| ==> store.contacts[i].name != "";
    }
    store.HandleIncomingMessage("", "?", now + 1);
    store.SelectContact(Some(""));
    selected := store.selectedContact;
    unread := store.contacts[3].unreadCount;
    isNew := "" in store.newContacts;
  }

  /** With the reset guarded by `!== null`, the same sequence as in EmptyNameSelectionScenario
      leaves the contact named "" with nothing unread and no longer new. */
  method EmptyNameSelectionCorrectedScenario(now: int) returns (selected: Option<string>, unread: int, isNew: bool)
    ensures selected == Some("") && unread == 0 && !isNew
  {
    var store := new Store(now);
    assert "" !in Names(store.contacts) by {
      assert forall i :: 0 <= i < |store.contacts| ==> store.contacts[i].name != "";
    }
    store.HandleIncomingMessage("", "?", now + 1);
    assert FindContact(store.contacts, "") == Some(3) by {
      assert forall i :: 0 <= i < 3 ==> store.contacts[i].name != "";
    }
    store.SelectContactAnyName(Some(""));
    selected := store.selectedContact;
    unread := store.contacts[3].unreadCount;
    isNew := "" in store.newContacts;
  }

  /** Selecting a name that is no contact and sending a non-blank text to it creates or extends
      a conversation that no contact backs: the conversations are not all backed by contacts. */
  method SelectAndSendToStranger(store: Store, name: string, text: string, now: int)
    requires store.Valid()
    requires name != "" && name !in Names(store.contacts) && !AllWhiteSpace(text)
    modifies store
    ensures store.Valid()
    ensures store.selectedContact == Some(name)
    ensures store.messages
      == old(store.messages)[name := old(Conversation(store.messages, name)) + [ChatMessage(You, Trim(text), now)]]
    ensures store.contacts == old(store.contacts) && store.newContacts == old(store.newContacts)
    ensures name in store.messages && name !in Names(store.contacts)
    ensures CurrentMessages(store.selectedContact, store.messages)
      == old(Conversation(store.messages, name)) + [ChatMessage(You, Trim(text), now)]
  {
    store.SelectContact(Some(name));
    store.SendMessage(text, now);
  }

  /** On the seed, "Bob" is no contact; selecting "Bob" and sending "hi" leaves "Bob" selected,
      a conversation with "Bob" holding just that message, open as the thread, and still no
      contact named "Bob". */
  method OrphanConversationScenario(now: int)
    returns (hasConversation: bool, isContact: bool, selected: Option<string>,
             conversation: seq<ChatMessage>, thread: seq<ChatMessage>)
    ensures hasConversation && !isContact && selected == Some("Bob")
    ensures conversation == [ChatMessage(You, Trim("hi"), now + 1)]
    ensures thread == [ChatMessage(You, Trim("hi"), now + 1)]
  {
    var store := new Store(now);
    SeedHasNoBob(now);
    assert !AllWhiteSpace("hi") by { assert !IsWhiteSpace("hi"[0]); }
    SelectAndSendToStranger(store, "Bob", "hi", now + 1);
    hasConversation := "Bob" in store.messages;
    isContact := "Bob" in Names(store.contacts);
    selected := store.selectedContact;
    conversation := store.messages["Bob"];
    thread := CurrentMessages(store.selectedContact, store.messages);
  }

  lemma SeedHasNoBob(now: int)
    ensures "Bob" !in Names(SeedContacts(now)) && "Bob" !in SeedMessages(now)
  {
    var cs := SeedContacts(now);
    assert forall i :: 0 <= i < |cs| ==> cs[i].name != "Bob";
  }

  /** "hi" has no white space to trim, so the thread of OrphanConversationScenario is
      `[ChatMessage(You, "hi", now + 1)]`. */
  lemma TrimOfHi()
    ensures Trim("hi") == "hi"
  {
    assert !IsWhiteSpace("hi"[0]);
    assert TrimStart("hi") == "hi";
    assert TrimEnd("hi") == "hi" by { assert !IsWhiteSpace("hi"[1]); }
  }
}
