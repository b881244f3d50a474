/** The store's computed views, as functions of its state: the contacts by recency, the new
    contacts among them, the unread total, the number of new contacts and the open thread;
    and `contacts.find` by name, which the mutators use. */
module ChatViews {
  import opened ChatTypes

  /** The set of contact names. */
  function Names(cs: seq<Contact>): set<string> {
    set i | 0 <= i < |cs| :: cs[i].name
  }

  /** No two contacts share a name. */
  predicate UniqueNames(cs: seq<Contact>) {
    forall i, j :: 0 <= i < j < |cs| ==> cs[i].name != cs[j].name
  }

  /** `contacts.find(c => c.name === name)`, as the index of the first match. */
  function FindContact(cs: seq<Contact>, name: string): (r: Option<nat>)
    ensures r.Some? ==> r.value < |cs| && cs[r.value].name == name
    ensures r.Some? ==> forall j :: 0 <= j < r.value ==> cs[j].name != name
    ensures r.None? <==> name !in Names(cs)
  {
    if cs == [] then None
    else if cs[0].name == name then Some(0)
    else
      match FindContact(cs[1..], name)
      case None =>
        NamesCons(cs);
        None
      case Some(i) => Some(i + 1)
  }

  // ---------------------------------------------------------------------------------------
  // sortedContacts: `[...contacts].sort((a, b) => b.lastMessageTime - a.lastMessageTime)`

  /** Most recent first. */
  predicate ByRecency(s: seq<Contact>) {
    forall i, j :: 0 <= i < j < |s| ==> s[i].lastMessageTime >= s[j].lastMessageTime
  }

  /** The contacts whose `lastMessageTime` is `t`, in their order in `s`. A sort is stable
      exactly when it keeps each of these subsequences as it was. */
  function WithTime(s: seq<Contact>, t: int): seq<Contact> {
    if s == [] then []
    else (if s[0].lastMessageTime == t then [s[0]] else []) + WithTime(s[1..], t)
  }

  /** Puts `c` in front of the first element that is not more recent than it. */
  function InsertByRecency(c: Contact, s: seq<Contact>): (r: seq<Contact>)
    ensures multiset(r) == multiset(s) + multiset{c}
  {
    if s == [] || s[0].lastMessageTime <= c.lastMessageTime then [c] + s
    else
      assert s == [s[0]] + s[1..];
      [s[0]] + InsertByRecency(c, s[1..])
  }

  lemma {:induction false} InsertKeepsOrder(c: Contact, s: seq<Contact>)
    requires ByRecency(s)
    ensures ByRecency(InsertByRecency(c, s))
  {
    if s != [] && s[0].lastMessageTime > c.lastMessageTime {
      var rest := InsertByRecency(c, s[1..]);
      assert InsertByRecency(c, s) == [s[0]] + rest;
      assert ByRecency(s[1..]);
      InsertKeepsOrder(c, s[1..]);
      InsertBelow(c, s[1..], s[0].lastMessageTime);
      var r := [s[0]] + rest;
      forall i, j | 0 <= i < j < |r| ensures r[i].lastMessageTime >= r[j].lastMessageTime {
        assert r[j] == rest[j - 1];
        if i > 0 { assert r[i] == rest[i - 1]; }
      }
    } else {
      var r := [c] + s;
      assert InsertByRecency(c, s) == r;
      forall i, j | 0 <= i < j < |r| ensures r[i].lastMessageTime >= r[j].lastMessageTime {
        assert r[j] == s[j - 1];
        if i > 0 { assert r[i] == s[i - 1]; } else if j > 1 { assert s[0].lastMessageTime >= s[j - 1].lastMessageTime; }
      }
    }
  }

  /** Inserting into a list none of whose times exceeds `b` a contact whose time does not exceed
      `b` gives a list none of whose times exceeds `b`. */
  lemma {:induction false} InsertBelow(c: Contact, s: seq<Contact>, b: int)
    requires c.lastMessageTime <= b
    requires forall k :: 0 <= k < |s| ==> s[k].lastMessageTime <= b
    ensures forall k :: 0 <= k < |InsertByRecency(c, s)| ==> InsertByRecency(c, s)[k].lastMessageTime <= b
  {
    if s != [] && s[0].lastMessageTime > c.lastMessageTime {
      var rest := InsertByRecency(c, s[1..]);
      assert InsertByRecency(c, s) == [s[0]] + rest;
      InsertBelow(c, s[1..], b);
    } else {
      assert InsertByRecency(c, s) == [c] + s;
    }
  }

  /** sortedContacts: the contacts, most recent first. */
  function SortedContacts(cs: seq<Contact>): (r: seq<Contact>)
    ensures multiset(r) == multiset(cs)
    ensures |r| == |cs|
    ensures ByRecency(r)
  {
    if cs == [] then []
    else
      assert cs == [cs[0]] + cs[1..];
      InsertKeepsOrder(cs[0], SortedContacts(cs[1..]));
      InsertByRecency(cs[0], SortedContacts(cs[1..]))
  }

  /** The equal-time subsequence of a list with `x` in front. */
  lemma WithTimeCons(x: Contact, s: seq<Contact>, t: int)
    ensures WithTime([x] + s, t) == (if x.lastMessageTime == t then [x] else []) + WithTime(s, t)
  {
    assert ([x] + s)[1..] == s;
  }

  /** Inserting `c` keeps every equal-time subsequence as if `c` had been put in front. */
  lemma {:induction false} InsertStable(c: Contact, s: seq<Contact>, t: int)
    ensures WithTime(InsertByRecency(c, s), t) == (if c.lastMessageTime == t then [c] else []) + WithTime(s, t)
  {
    if s != [] && s[0].lastMessageTime > c.lastMessageTime {
      var rest := InsertByRecency(c, s[1..]);
      assert InsertByRecency(c, s) == [s[0]] + rest;
      InsertStable(c, s[1..], t);
      PassOver(s[0], c, rest, s[1..], t);
      assert [s[0]] + s[1..] == s;
    } else {
      assert InsertByRecency(c, s) == [c] + s;
      WithTimeCons(c, s, t);
    }
  }

  /** One step of the insertion: when `rest` looks like `c` in front of `tail` and `x` is at a
      different time from `c`, so does `[x] + rest` with `c` in front of `[x] + tail`. */
  lemma PassOver(x: Contact, c: Contact, rest: seq<Contact>, tail: seq<Contact>, t: int)
    requires x.lastMessageTime != c.lastMessageTime
    requires WithTime(rest, t) == (if c.lastMessageTime == t then [c] else []) + WithTime(tail, t)
    ensures WithTime([x] + rest, t) == (if c.lastMessageTime == t then [c] else []) + WithTime([x] + tail, t)
  {
    var hc := if c.lastMessageTime == t then [c] else [];
    var hx := if x.lastMessageTime == t then [x] else [];
    WithTimeCons(x, rest, t);
    WithTimeCons(x, tail, t);
    SwapEmpty(hx, hc, WithTime(tail, t));
  }

  /** Two pieces of which one is empty can be put in front of a tail in either order. */
  lemma SwapEmpty<T>(a: seq<T>, b: seq<T>, tail: seq<T>)
    requires a == [] || b == []
    ensures a + (b + tail) == b + (a + tail)
  {
    if a == [] {
      assert a + (b + tail) == b + tail;
    } else {
      assert b + (a + tail) == a + tail;
    }
  }

  /** The sort is stable: contacts with equal `lastMessageTime` keep their original order. */
  lemma {:induction false} SortedContactsStable(cs: seq<Contact>, t: int)
    ensures WithTime(SortedContacts(cs), t) == WithTime(cs, t)
  {
    if cs != [] {
      SortedContactsStable(cs[1..], t);
      InsertStable(cs[0], SortedContacts(cs[1..]), t);
    }
  }

  lemma {:induction false} WithTimeHas(s: seq<Contact>, j: nat)
    requires j < |s|
    ensures WithTime(s, s[j].lastMessageTime) != []
  {
    if j > 0 {
      WithTimeHas(s[1..], j - 1);
    }
  }

  lemma {:induction false} WithTimeOnlyFrom(s: seq<Contact>, t: int)
    requires WithTime(s, t) != []
    ensures exists j :: 0 <= j < |s| && s[j].lastMessageTime == t
  {
    if s[0].lastMessageTime != t {
      WithTimeOnlyFrom(s[1..], t);
      var j :| 0 <= j < |s[1..]| && s[1..][j].lastMessageTime == t;
      assert s[j + 1].lastMessageTime == t;
    }
  }

  /** The most recent time of a non-empty recency-ordered sequence is that of its head. */
  lemma HeadIsMostRecent(s: seq<Contact>, t: int)
    requires ByRecency(s) && s != []
    requires WithTime(s, t) != []
    ensures s[0].lastMessageTime >= t
  {
    WithTimeOnlyFrom(s, t);
  }

  lemma HeadsAgree(a: seq<Contact>, b: seq<Contact>)
    requires ByRecency(a) && ByRecency(b) && a != [] && b != []
    requires WithTime(a, a[0].lastMessageTime) == WithTime(b, a[0].lastMessageTime)
    requires WithTime(a, b[0].lastMessageTime) == WithTime(b, b[0].lastMessageTime)
    ensures a[0] == b[0]
  {
    var ta, tb := a[0].lastMessageTime, b[0].lastMessageTime;
    WithTimeHas(a, 0);
    WithTimeHas(b, 0);
    HeadIsMostRecent(b, ta);
    HeadIsMostRecent(a, tb);
    assert WithTime(a, ta)[0] == a[0];
    assert WithTime(b, ta)[0] == b[0];
  }

  lemma TailsAgree(a: seq<Contact>, b: seq<Contact>, t: int)
    requires a != [] && b != [] && a[0] == b[0]
    requires WithTime(a, t) == WithTime(b, t)
    ensures WithTime(a[1..], t) == WithTime(b[1..], t)
  {
    var head := if a[0].lastMessageTime == t then [a[0]] else [];
    assert WithTime(a[1..], t) == WithTime(a, t)[|head|..];
    assert WithTime(b[1..], t) == WithTime(b, t)[|head|..];
  }

  /** Two sequences in recency order with the same equal-time subsequences are the same. */
  lemma {:induction false} SameStableOrder(a: seq<Contact>, b: seq<Contact>)
    requires ByRecency(a) && ByRecency(b)
    requires forall t :: WithTime(a, t) == WithTime(b, t)
    ensures a == b
    decreases |a|
  {
    if a == [] || b == [] {
      // an element of either would have a non-empty equal-time subsequence in the other
      if a != [] {
        WithTimeHas(a, 0);
      } else if b != [] {
        WithTimeHas(b, 0);
      }
    } else {
      HeadsAgree(a, b);
      forall t
        ensures WithTime(a[1..], t) == WithTime(b[1..], t)
      {
        TailsAgree(a, b, t);
      }
      SameStableOrder(a[1..], b[1..]);
      assert a == [a[0]] + a[1..];
      assert b == [b[0]] + b[1..];
    }
  }

  /** SortedContacts is the one stable descending sort: any arrangement of the contacts that is
      in recency order and keeps equal-time contacts in their original order equals it. */
  lemma SortedContactsUnique(cs: seq<Contact>, r: seq<Contact>)
    requires ByRecency(r)
    requires forall t :: WithTime(r, t) == WithTime(cs, t)
    ensures r == SortedContacts(cs)
  {
    forall t
      ensures WithTime(r, t) == WithTime(SortedContacts(cs), t)
    {
      SortedContactsStable(cs, t);
    }
    SameStableOrder(r, SortedContacts(cs));
  }

  // ---------------------------------------------------------------------------------------
  // newContactsList: `sortedContacts.filter(contact => newContacts.has(contact.name))`

  /** The contacts of `s` whose names are in `newNames`, in their order in `s`. */
  function NewContactsList(s: seq<Contact>, newNames: set<string>): (r: seq<Contact>)
    ensures |r| <= |s|
    ensures forall c :: c in r <==> c in s && c.name in newNames
  {
    if s == [] then []
    else
      assert forall c :: c in s <==> c == s[0] || c in s[1..];
      (if s[0].name in newNames then [s[0]] else []) + NewContactsList(s[1..], newNames)
  }

  /** Filtering keeps the order: the new-contact list of a recency-ordered list is too. */
  lemma {:induction false} NewContactsListByRecency(s: seq<Contact>, newNames: set<string>)
    requires ByRecency(s)
    ensures ByRecency(NewContactsList(s, newNames))
  {
    if s != [] {
      NewContactsListByRecency(s[1..], newNames);
      var rest := NewContactsList(s[1..], newNames);
      forall k | 0 <= k < |rest|
        ensures s[0].lastMessageTime >= rest[k].lastMessageTime
      {
        assert rest[k] in s[1..];
      }
    }
  }

  /** The names of a non-empty list: the head's and those of the tail. */
  lemma NamesCons(s: seq<Contact>)
    requires s != []
    ensures Names(s) == {s[0].name} + Names(s[1..])
  {
    forall n | n in Names(s) ensures n in {s[0].name} + Names(s[1..]) {
      var i :| 0 <= i < |s| && s[i].name == n;
      if i > 0 { assert s[1..][i - 1].name == n; }
    }
    forall n | n in Names(s[1..]) ensures n in Names(s) {
      var i :| 0 <= i < |s[1..]| && s[1..][i].name == n;
      assert s[i + 1].name == n;
    }
  }

  /** With unique names the head's name is none of the tail's. */
  lemma HeadNameNotInTail(s: seq<Contact>)
    requires s != [] && UniqueNames(s)
    ensures s[0].name !in Names(s[1..])
  {
    forall i | 0 <= i < |s[1..]| ensures s[1..][i].name != s[0].name {
      assert s[1..][i] == s[i + 1];
    }
  }

  /** The new-contact list of a list with `x` in front. */
  lemma NewContactsListCons(x: Contact, s: seq<Contact>, newNames: set<string>)
    ensures NewContactsList([x] + s, newNames) == (if x.name in newNames then [x] else []) + NewContactsList(s, newNames)
  {
    assert ([x] + s)[1..] == s;
  }

  /** Filtering and taking the equal-time subsequence commute: the filter keeps ties in the
      order they have in its input. */
  lemma {:induction false} NewContactsListWithTime(s: seq<Contact>, newNames: set<string>, t: int)
    ensures WithTime(NewContactsList(s, newNames), t) == NewContactsList(WithTime(s, t), newNames)
  {
    if s != [] {
      NewContactsListWithTime(s[1..], newNames, t);
      var rest := NewContactsList(s[1..], newNames);
      var tail := WithTime(s[1..], t);
      var both := if s[0].name in newNames && s[0].lastMessageTime == t then [s[0]] else [];
      if s[0].name in newNames {
        assert NewContactsList(s, newNames) == [s[0]] + rest;
        WithTimeCons(s[0], rest, t);
      } else {
        assert NewContactsList(s, newNames) == rest;
      }
      assert WithTime(NewContactsList(s, newNames), t) == both + WithTime(rest, t);
      if s[0].lastMessageTime == t {
        assert WithTime(s, t) == [s[0]] + tail;
        NewContactsListCons(s[0], tail, newNames);
      } else {
        assert WithTime(s, t) == tail;
      }
      assert NewContactsList(WithTime(s, t), newNames) == both + NewContactsList(tail, newNames);
    }
  }

  /** newContactsList is the stable recency sort of the new contacts: filtering the sorted view
      gives what sorting the filtered contacts gives, so ties keep their original order. */
  lemma NewContactsListIsSortedFilter(cs: seq<Contact>, newNames: set<string>)
    ensures NewContactsList(SortedContacts(cs), newNames) == SortedContacts(NewContactsList(cs, newNames))
  {
    var r := NewContactsList(SortedContacts(cs), newNames);
    NewContactsListByRecency(SortedContacts(cs), newNames);
    forall t
      ensures WithTime(r, t) == WithTime(NewContactsList(cs, newNames), t)
    {
      NewContactsListWithTime(SortedContacts(cs), newNames, t);
      SortedContactsStable(cs, t);
      NewContactsListWithTime(cs, newNames, t);
    }
    SortedContactsUnique(NewContactsList(cs, newNames), r);
  }

  /** With unique names, the new-contact list has one entry per name of `newNames` that is a contact. */
  lemma {:induction false} NewContactsListLength(s: seq<Contact>, newNames: set<string>)
    requires UniqueNames(s)
    ensures |NewContactsList(s, newNames)| == |newNames * Names(s)|
  {
    if s != [] {
      NewContactsListLength(s[1..], newNames);
      NamesCons(s);
      HeadNameNotInTail(s);
      if s[0].name in newNames {
        assert newNames * Names(s) == {s[0].name} + newNames * Names(s[1..]);
      } else {
        assert newNames * Names(s) == newNames * Names(s[1..]);
      }
    }
  }

  /** newContactsCount: the size of the new-contact set. */
  function NewContactsCount(newNames: set<string>): (r: nat)
    ensures r == 0 <==> newNames == {}
  {
    |newNames|
  }

  /** When every new name is a contact, the list shown under "new" is as long as the count
      on its badge. */
  lemma NewContactsCountMatchesList(cs: seq<Contact>, newNames: set<string>)
    requires UniqueNames(cs) && newNames <= Names(cs)
    ensures |NewContactsList(SortedContacts(cs), newNames)| == NewContactsCount(newNames)
  {
    SortedKeepsNames(cs);
    NewContactsListLength(SortedContacts(cs), newNames);
    assert newNames * Names(cs) == newNames;
  }

  /** Sorting keeps the set of names, and their uniqueness. */
  lemma SortedKeepsNames(cs: seq<Contact>)
    ensures Names(SortedContacts(cs)) == Names(cs)
    ensures UniqueNames(cs) ==> UniqueNames(SortedContacts(cs))
  {
    var r := SortedContacts(cs);
    PermutationNames(cs, r);
    PermutationNames(r, cs);
    if UniqueNames(cs) {
      forall i, j | 0 <= i < j < |r| ensures r[i].name != r[j].name {
        MultisetUniqueNames(cs, r, i, j);
      }
    }
  }

  /** The names of a rearrangement are among the original names. */
  lemma PermutationNames(cs: seq<Contact>, r: seq<Contact>)
    requires multiset(r) == multiset(cs)
    ensures Names(r) <= Names(cs)
  {
    forall n | n in Names(r) ensures n in Names(cs) {
      var i :| 0 <= i < |r| && r[i].name == n;
      assert r[i] in multiset(cs);
      var j :| 0 <= j < |cs| && cs[j] == r[i];
    }
  }

  /** A permutation of a list with unique names has no two entries with one name. */
  lemma MultisetUniqueNames(cs: seq<Contact>, r: seq<Contact>, i: nat, j: nat)
    requires UniqueNames(cs) && multiset(r) == multiset(cs)
    requires i < j < |r|
    ensures r[i].name != r[j].name
  {
    if r[i].name == r[j].name {
      assert r[i] in multiset(cs) && r[j] in multiset(cs);
      var x :| 0 <= x < |cs| && cs[x] == r[i];
      var y :| 0 <= y < |cs| && cs[y] == r[j];
      if x == y {
        // one contact of cs would sit twice in r
        assert r[i] == r[j];
        var m := multiset(r);
        assert r == r[..i] + [r[i]] + r[i + 1..j] + [r[j]] + r[j + 1..];
        assert multiset(r) == multiset(r[..i]) + multiset{r[i]} + multiset(r[i + 1..j]) + multiset{r[j]} + multiset(r[j + 1..]);
        assert m[r[i]] >= 2;
        UniqueCountOne(cs, x);
        assert false;
      }
    }
  }

  /** In a list with unique names every entry occurs exactly once. */
  lemma {:induction false} UniqueCountOne(cs: seq<Contact>, x: nat)
    requires UniqueNames(cs) && x < |cs|
    ensures multiset(cs)[cs[x]] == 1
  {
    if x == 0 {
      assert cs == [cs[0]] + cs[1..];
      assert cs[0] !in cs[1..] by {
        forall k | 0 <= k < |cs[1..]| ensures cs[1..][k] != cs[0] {
          assert cs[1..][k] == cs[k + 1];
        }
      }
    } else {
      UniqueCountOne(cs[1..], x - 1);
      assert cs == [cs[0]] + cs[1..];
      assert cs[0] != cs[x] by { assert cs[0].name != cs[x].name; }
    }
  }

  // ---------------------------------------------------------------------------------------
  // totalUnreadCount: `contacts.reduce((total, contact) => total + contact.unreadCount, 0)`

  /** The left fold that `reduce` performs, from the running total `total`. */
  function ReduceUnread(total: int, cs: seq<Contact>): (r: int)
    ensures (forall i :: 0 <= i < |cs| ==> cs[i].unreadCount >= 0) ==> r >= total
    decreases |cs|
  {
    if cs == [] then total else ReduceUnread(total + cs[0].unreadCount, cs[1..])
  }

  /** totalUnreadCount: never negative while no count is, and 0 without contacts. */
  function TotalUnreadCount(cs: seq<Contact>): (r: int)
    ensures (forall i :: 0 <= i < |cs| ==> cs[i].unreadCount >= 0) ==> r >= 0
    ensures cs == [] ==> r == 0
  {
    ReduceUnread(0, cs)
  }

  /** The sum of the unread counts, as a reference for the fold. */
  function SumUnread(cs: seq<Contact>): int {
    if cs == [] then 0 else cs[0].unreadCount + SumUnread(cs[1..])
  }

  lemma {:induction false} ReduceIsSum(total: int, cs: seq<Contact>)
    ensures ReduceUnread(total, cs) == total + SumUnread(cs)
    decreases |cs|
  {
    if cs != [] {
      ReduceIsSum(total + cs[0].unreadCount, cs[1..]);
    }
  }

  /** totalUnreadCount is the sum of all unread counts. */
  lemma TotalUnreadIsSum(cs: seq<Contact>)
    ensures TotalUnreadCount(cs) == SumUnread(cs)
  {
    ReduceIsSum(0, cs);
  }

  lemma {:induction false} SumUnreadNonNegative(cs: seq<Contact>)
    requires forall i :: 0 <= i < |cs| ==> cs[i].unreadCount >= 0
    ensures SumUnread(cs) >= 0
  {
    if cs != [] {
      SumUnreadNonNegative(cs[1..]);
    }
  }

  /** Replacing one contact changes the sum by the difference of their unread counts. */
  lemma {:induction false} SumUnreadUpdate(cs: seq<Contact>, i: nat, c: Contact)
    requires i < |cs|
    ensures SumUnread(cs[i := c]) == SumUnread(cs) - cs[i].unreadCount + c.unreadCount
  {
    if i > 0 {
      SumUnreadUpdate(cs[1..], i - 1, c);
      assert cs[i := c][1..] == cs[1..][i - 1 := c];
    } else {
      assert cs[i := c][1..] == cs[1..];
    }
  }

  /** Appending a contact adds its unread count. */
  lemma {:induction false} SumUnreadAppend(cs: seq<Contact>, c: Contact)
    ensures SumUnread(cs + [c]) == SumUnread(cs) + c.unreadCount
  {
    if cs != [] {
      SumUnreadAppend(cs[1..], c);
      assert (cs + [c])[1..] == cs[1..] + [c];
    }
  }

  lemma {:induction false} SumUnreadInsert(c: Contact, s: seq<Contact>)
    ensures SumUnread(InsertByRecency(c, s)) == c.unreadCount + SumUnread(s)
  {
    if s != [] && s[0].lastMessageTime > c.lastMessageTime {
      SumUnreadInsert(c, s[1..]);
    }
  }

  /** The unread total is the same whichever order the contacts are shown in. */
  lemma {:induction false} TotalUnreadOfSorted(cs: seq<Contact>)
    ensures TotalUnreadCount(SortedContacts(cs)) == TotalUnreadCount(cs)
  {
    SumUnreadOfSorted(cs);
    TotalUnreadIsSum(cs);
    TotalUnreadIsSum(SortedContacts(cs));
  }

  lemma {:induction false} SumUnreadOfSorted(cs: seq<Contact>)
    ensures SumUnread(SortedContacts(cs)) == SumUnread(cs)
  {
    if cs != [] {
      SumUnreadOfSorted(cs[1..]);
      SumUnreadInsert(cs[0], SortedContacts(cs[1..]));
    }
  }

  // ---------------------------------------------------------------------------------------
  // currentMessages

  /** `messages.get(name) || []`: the conversation with `name`, empty when there is none. */
  function Conversation(messages: map<string, seq<ChatMessage>>, name: string): (r: seq<ChatMessage>)
    ensures name in messages ==> r == messages[name]
    ensures name !in messages ==> r == []
  {
    if name in messages then messages[name] else []
  }

  /** A selection is truthy when it is a non-empty name. */
  function Truthy(selected: Option<string>): (b: bool)
    ensures b <==> selected != None && selected != Some("")
  {
    selected.Some? && selected.value != ""
  }

  /** currentMessages: the selected conversation, or nothing when no (non-empty) name is selected. */
  function CurrentMessages(selected: Option<string>, messages: map<string, seq<ChatMessage>>): (r: seq<ChatMessage>)
    ensures !Truthy(selected) ==> r == []
    ensures Truthy(selected) ==> r == Conversation(messages, selected.value)
  {
    if !Truthy(selected) then [] else Conversation(messages, selected.value)
  }

  /** What the open thread shows after one message is appended to the conversation with `name`:
      that message at its end exactly when `name` is the truthy selection, the same thread otherwise. */
  lemma CurrentMessagesAfterAppend(selected: Option<string>, messages: map<string, seq<ChatMessage>>,
                                   name: string, m: ChatMessage)
    ensures CurrentMessages(selected, messages[name := Conversation(messages, name) + [m]])
      == if Truthy(selected) && selected.value == name then CurrentMessages(selected, messages) + [m]
         else CurrentMessages(selected, messages)
  {
  }
}
