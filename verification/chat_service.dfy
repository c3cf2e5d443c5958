/**
 * The in-memory session store: sessions keyed by id in insertion order (a
 * JavaScript `Map`), with creation, lookup, listing newest first, appending
 * a message with the retitling rule, and assembly of the model prompt.
 */
module ChatService {

  import opened Wrappers

  datatype Role = System | User | Assistant

  /** The roles a stored message can have. */
  type Speaker = r: Role | r != System witness User

  datatype ChatMessage = ChatMessage(role: Speaker, content: string, timestamp: int)

  datatype ChatSession = ChatSession(id: string, title: string, messages: seq<ChatMessage>, createdAt: int)

  datatype OllamaMessage = OllamaMessage(role: Role, content: string)

  /** The `Map`: its keys in insertion order, and the sessions under them. */
  datatype Store = Store(order: seq<string>, sessions: map<string, ChatSession>)

  const NewTitle: string := "New Chat"
  const TitleLength: nat := 50
  const Ellipsis: string := "..."

  /** `config.systemPrompt`, which the program passes as the `prompt` of `BuildOllamaMessages` and `ChatController.HandleChat`. */
  const SystemPrompt: string :=
    "You are a friendly, knowledgeable school teacher. Explain concepts clearly with examples appropriate for students. Cover all subjects including math, science, history, English, geography, etc. Use simple language and encourage curiosity. If a student seems confused, try explaining in a different way."

  const EmptyStore: Store := Store([], map[])

  /** Keys listed once each, exactly the stored ones, each session stored under its own id. */
  predicate Valid(st: Store) {
    (forall i, j :: 0 <= i < j < |st.order| ==> st.order[i] != st.order[j])
    && (forall id :: id in st.order ==> id in st.sessions)
    && (forall id :: id in st.sessions ==> id in st.order)
    && (forall id :: id in st.sessions ==> st.sessions[id].id == id)
  }

  lemma {:induction false} EmptyStoreValid()
    ensures Valid(EmptyStore)
  {
  }

  function GetSession(st: Store, id: string): (r: Option<ChatSession>)
    ensures r.Some? <==> id in st.sessions
    ensures r.Some? ==> r.value == st.sessions[id]
  {
    if id in st.sessions then Some(st.sessions[id]) else None
  }

  /**
   * `createSession` with the fresh id and the clock reading as parameters:
   * `Map.set` stores the new session, and a key already present keeps its
   * place in the iteration order.
   */
  function CreateSession(st: Store, id: string, now: int): (r: (Store, ChatSession))
    ensures r.1.id == id && r.1.title == NewTitle && r.1.messages == [] && r.1.createdAt == now
    ensures GetSession(r.0, id) == Some(r.1)
    ensures forall other :: other != id ==> GetSession(r.0, other) == GetSession(st, other)
    ensures Valid(st) ==> Valid(r.0)
    ensures id !in st.sessions ==> r.0.order == st.order + [id]
  {
    var session := ChatSession(id, NewTitle, [], now);
    var order := if id in st.sessions then st.order else st.order + [id];
    (Store(order, st.sessions[id := session]), session)
  }

  /** The first `n` characters, or all of them when there are fewer (`slice(0, n)`). */
  function Take(s: string, n: nat): (r: string)
    ensures |r| == if |s| <= n then |s| else n
    ensures r <= s
  {
    if |s| <= n then s else s[..n]
  }

  /** The title a first user message gives a session: the content cut to 50 characters, marked with "..." exactly when something was cut. */
  function Retitle(content: string): (r: string)
    ensures |r| <= TitleLength + |Ellipsis|
    ensures |content| <= TitleLength ==> r == content
    ensures |content| > TitleLength ==> r == content[..TitleLength] + Ellipsis
  {
    Take(content, TitleLength) + (if |content| > TitleLength then Ellipsis else "")
  }

  /** The message appended to a session known to be stored. */
  function Append(st: Store, id: string, role: Speaker, content: string, now: int): (r: Store)
    requires id in st.sessions
    ensures r.order == st.order && r.sessions.Keys == st.sessions.Keys
    ensures forall other :: other in st.sessions && other != id ==> r.sessions[other] == st.sessions[other]
    ensures var before, after := st.sessions[id], r.sessions[id];
      after.id == before.id && after.createdAt == before.createdAt
      && after.messages == before.messages + [ChatMessage(role, content, now)]
      && after.title == (if before.title == NewTitle && role == User then Retitle(content) else before.title)
  {
    var session := st.sessions[id];
    var title := if session.title == NewTitle && role == User then Retitle(content) else session.title;
    var updated := session.(messages := session.messages + [ChatMessage(role, content, now)], title := title);
    Store(st.order, st.sessions[id := updated])
  }

  /** Adding a message keeps the store's invariant. */
  lemma {:induction false} AppendValid(st: Store, id: string, role: Speaker, content: string, now: int)
    requires id in st.sessions
    ensures Valid(st) ==> Valid(Append(st, id, role, content, now))
  {
  }

  /** `addMessage`: an unknown id throws and nothing changes. */
  function AddMessage(st: Store, id: string, role: Speaker, content: string, now: int): (r: Result<Store>)
    ensures r.Failure? <==> id !in st.sessions
    ensures r.Failure? ==> r.error == "Session " + id + " not found"
    ensures r.Success? ==> r.value == Append(st, id, role, content, now)
    ensures r.Success? && Valid(st) ==> Valid(r.value)
  {
    if id !in st.sessions then Failure("Session " + id + " not found")
    else Success(Append(st, id, role, content, now))
  }

  /** Assistant messages never retitle, and a title other than "New Chat" is final. */
  lemma {:induction false} TitleSettles(st: Store, id: string, role: Speaker, content: string, now: int)
    requires id in st.sessions
    requires role == Assistant || st.sessions[id].title != NewTitle
    ensures AddMessage(st, id, role, content, now).value.sessions[id].title == st.sessions[id].title
  {
  }

  // Listing.

  /** Newest first: `createdAt` never increases along the list. */
  predicate Newest(s: seq<ChatSession>) {
    forall i, j :: 0 <= i < j < |s| ==> s[i].createdAt >= s[j].createdAt
  }

  /** The sessions created at instant `t`, in order. */
  function CreatedAt(s: seq<ChatSession>, t: int): seq<ChatSession> {
    if |s| == 0 then []
    else (if s[0].createdAt == t then [s[0]] else []) + CreatedAt(s[1..], t)
  }

  lemma {:induction false} CreatedAtAppend(a: seq<ChatSession>, b: seq<ChatSession>, t: int)
    ensures CreatedAt(a + b, t) == CreatedAt(a, t) + CreatedAt(b, t)
    decreases |a|
  {
    if |a| == 0 {
      assert a + b == b;
    } else {
      assert (a + b)[1..] == a[1..] + b;
      CreatedAtAppend(a[1..], b, t);
    }
  }

  lemma {:induction false} CreatedAtOlder(s: seq<ChatSession>, t: int)
    requires Newest(s)
    requires |s| > 0 && s[0].createdAt < t
    ensures CreatedAt(s, t) == []
    decreases |s|
  {
    if |s| > 1 {
      CreatedAtOlder(s[1..], t);
    }
  }

  /** Places `x` before the first session older than it, so after every session at least as new. */
  function Insert(x: ChatSession, s: seq<ChatSession>): (r: seq<ChatSession>)
    ensures multiset(r) == multiset(s) + multiset{x}
    ensures |r| == |s| + 1
  {
    if |s| == 0 then [x]
    else if s[0].createdAt < x.createdAt then [x] + s
    else
      assert s == [s[0]] + s[1..];
      [s[0]] + Insert(x, s[1..])
  }

  lemma {:induction false} InsertNewest(x: ChatSession, s: seq<ChatSession>)
    requires Newest(s)
    ensures Newest(Insert(x, s))
    decreases |s|
  {
    if |s| == 0 {
    } else if s[0].createdAt < x.createdAt {
      ConsNewest(x, s);
    } else {
      InsertNewest(x, s[1..]);
      InsertBounded(x, s[1..], s[0].createdAt);
      ConsNewest(s[0], Insert(x, s[1..]));
    }
  }

  /** A session no older than anything after it can go in front. */
  lemma {:induction false} ConsNewest(h: ChatSession, r: seq<ChatSession>)
    requires Newest(r)
    requires forall i :: 0 <= i < |r| ==> r[i].createdAt <= h.createdAt
    ensures Newest([h] + r)
  {
    var u := [h] + r;
    forall i, j | 0 <= i < j < |u| ensures u[i].createdAt >= u[j].createdAt {
      assert u[j] == r[j - 1];
      if i > 0 {
        assert u[i] == r[i - 1];
      }
    }
  }

  /** Inserting a session into sessions no newer than `top` keeps them all no newer than `top`. */
  lemma {:induction false} InsertBounded(x: ChatSession, s: seq<ChatSession>, top: int)
    requires x.createdAt <= top
    requires forall i :: 0 <= i < |s| ==> s[i].createdAt <= top
    ensures forall i :: 0 <= i < |Insert(x, s)| ==> Insert(x, s)[i].createdAt <= top
    decreases |s|
  {
    if |s| > 0 && s[0].createdAt >= x.createdAt {
      InsertBounded(x, s[1..], top);
      var r := Insert(x, s[1..]);
      assert forall i :: 1 <= i < |r| + 1 ==> ([s[0]] + r)[i] == r[i - 1];
    }
  }

  lemma {:induction false} InsertKeepsOrder(x: ChatSession, s: seq<ChatSession>, t: int)
    requires Newest(s)
    ensures CreatedAt(Insert(x, s), t) == CreatedAt(s, t) + (if x.createdAt == t then [x] else [])
    decreases |s|
  {
    var mine: seq<ChatSession> := if x.createdAt == t then [x] else [];
    if |s| == 0 {
      CreatedAtCons(x, [], t);
    } else if s[0].createdAt < x.createdAt {
      CreatedAtCons(x, s, t);
      if x.createdAt == t {
        CreatedAtOlder(s, t);
      }
    } else {
      var h := s[0];
      var rest := s[1..];
      assert Newest(rest) by {
        forall i, j | 0 <= i < j < |rest| ensures rest[i].createdAt >= rest[j].createdAt {
          assert rest[i] == s[i + 1] && rest[j] == s[j + 1];
        }
      }
      InsertKeepsOrder(x, rest, t);
      CreatedAtCons(h, Insert(x, rest), t);
      assert s == [h] + rest;
      CreatedAtCons(h, rest, t);
      var theirs: seq<ChatSession> := if h.createdAt == t then [h] else [];
      Regroup(theirs, CreatedAt(rest, t), mine);
    }
  }

  lemma {:induction false} CreatedAtCons(h: ChatSession, r: seq<ChatSession>, t: int)
    ensures CreatedAt([h] + r, t) == (if h.createdAt == t then [h] else []) + CreatedAt(r, t)
  {
    assert ([h] + r)[1..] == r;
  }

  lemma {:induction false} Regroup<T>(a: seq<T>, b: seq<T>, c: seq<T>)
    ensures a + (b + c) == (a + b) + c
  {
  }

  /** `Array.prototype.sort` with the comparator `b.createdAt - a.createdAt`, which is stable. */
  function SortNewest(s: seq<ChatSession>): (r: seq<ChatSession>)
    ensures multiset(r) == multiset(s)
    ensures |r| == |s|
  {
    if |s| == 0 then []
    else
      assert s == s[..|s| - 1] + [s[|s| - 1]];
      Insert(s[|s| - 1], SortNewest(s[..|s| - 1]))
  }

  /** The sort puts the newest first. */
  lemma {:induction false} SortNewestOrdered(s: seq<ChatSession>)
    ensures Newest(SortNewest(s))
    decreases |s|
  {
    if |s| > 0 {
      SortNewestOrdered(s[..|s| - 1]);
      InsertNewest(s[|s| - 1], SortNewest(s[..|s| - 1]));
    }
  }

  /** The sort keeps sessions created at the same instant in their original order. */
  lemma {:induction false} SortNewestStable(s: seq<ChatSession>, t: int)
    ensures CreatedAt(SortNewest(s), t) == CreatedAt(s, t)
    decreases |s|
  {
    if |s| > 0 {
      var init, x := s[..|s| - 1], s[|s| - 1];
      assert s == init + [x];
      var sorted := SortNewest(init);
      assert SortNewest(s) == Insert(x, sorted);
      SortNewestStable(init, t);
      SortNewestOrdered(init);
      InsertKeepsOrder(x, sorted, t);
      CreatedAtAppend(init, [x], t);
      assert CreatedAt([x], t) == if x.createdAt == t then [x] else [] by {
        assert [x][1..] == [];
      }
    }
  }

  /** `sessions.values()`: the stored sessions in insertion order. */
  function Listed(order: seq<string>, sessions: map<string, ChatSession>): (r: seq<ChatSession>)
    requires forall id :: id in order ==> id in sessions
    ensures |r| == |order|
    ensures forall i :: 0 <= i < |r| ==> r[i] == sessions[order[i]]
  {
    if |order| == 0 then [] else [sessions[order[0]]] + Listed(order[1..], sessions)
  }

  /**
   * `getAllSessions`: every stored session exactly once, newest first, with
   * sessions created at the same instant in insertion order.
   */
  function GetAllSessions(st: Store): (r: seq<ChatSession>)
    requires Valid(st)
    ensures Newest(r)
    ensures forall id :: id in st.sessions ==> st.sessions[id] in r
    ensures forall i :: 0 <= i < |r| ==> r[i].id in st.sessions && st.sessions[r[i].id] == r[i]
    ensures forall i, j :: 0 <= i < j < |r| ==> r[i].id != r[j].id
    ensures forall t :: CreatedAt(r, t) == CreatedAt(Listed(st.order, st.sessions), t)
  {
    var listed := Listed(st.order, st.sessions);
    var r := SortNewest(listed);
    SortNewestOrdered(listed);
    forall t ensures CreatedAt(r, t) == CreatedAt(listed, t) {
      SortNewestStable(listed, t);
    }
    EveryStoredListed(st, r);
    OnlyStoredListed(st, r);
    ListedOnce(st);
    NoIdTwice(listed, r);
    r
  }

  lemma {:induction false} EveryStoredListed(st: Store, r: seq<ChatSession>)
    requires Valid(st)
    requires multiset(r) == multiset(Listed(st.order, st.sessions))
    ensures forall id :: id in st.sessions ==> st.sessions[id] in r
  {
    var listed := Listed(st.order, st.sessions);
    forall id | id in st.sessions ensures st.sessions[id] in r {
      var i :| 0 <= i < |st.order| && st.order[i] == id;
      assert listed[i] == st.sessions[id];
      assert st.sessions[id] in multiset(listed);
    }
  }

  lemma {:induction false} OnlyStoredListed(st: Store, r: seq<ChatSession>)
    requires Valid(st)
    requires multiset(r) == multiset(Listed(st.order, st.sessions))
    ensures forall i :: 0 <= i < |r| ==> r[i].id in st.sessions && st.sessions[r[i].id] == r[i]
  {
    forall i | 0 <= i < |r| ensures r[i].id in st.sessions && st.sessions[r[i].id] == r[i] {
      assert r[i] in multiset(r);
      ListedIsStored(st, r[i]);
    }
  }

  /** Every listed session is the one stored under its id. */
  lemma {:induction false} ListedIsStored(st: Store, x: ChatSession)
    requires Valid(st)
    requires x in Listed(st.order, st.sessions)
    ensures x.id in st.sessions && st.sessions[x.id] == x
  {
    var listed := Listed(st.order, st.sessions);
    var k :| 0 <= k < |listed| && listed[k] == x;
    assert x == st.sessions[st.order[k]];
  }

  /** A rearrangement of a list in which each session occurs once has no id twice, given ids determine sessions. */
  lemma {:induction false} NoIdTwice(listed: seq<ChatSession>, r: seq<ChatSession>)
    requires multiset(r) == multiset(listed)
    requires forall k :: 0 <= k < |listed| ==> multiset(listed)[listed[k]] == 1
    requires forall i, j :: 0 <= i < |r| && 0 <= j < |r| && r[i].id == r[j].id ==> r[i] == r[j]
    ensures forall i, j :: 0 <= i < j < |r| ==> r[i].id != r[j].id
  {
    forall i, j | 0 <= i < j < |r| ensures r[i].id != r[j].id {
      if r[i] == r[j] {
        CountedTwice(r, i, j);
      }
    }
  }

  /** In a valid store the listed sessions have pairwise different ids. */
  lemma {:induction false} ListedOnce(st: Store)
    requires Valid(st)
    ensures var l := Listed(st.order, st.sessions);
      forall i :: 0 <= i < |l| ==> multiset(l)[l[i]] == 1
  {
    var l := Listed(st.order, st.sessions);
    assert forall a, b :: 0 <= a < b < |l| ==> l[a].id != l[b].id by {
      forall a, b | 0 <= a < b < |l| ensures l[a].id != l[b].id {
        assert l[a].id == st.order[a] && l[b].id == st.order[b];
      }
    }
    forall i | 0 <= i < |l| ensures multiset(l)[l[i]] == 1 {
      CountOne(l, i);
    }
  }

  /** A session whose id occurs once in the list occurs once. */
  lemma {:induction false} CountOne(l: seq<ChatSession>, i: int)
    requires 0 <= i < |l|
    requires forall a, b :: 0 <= a < b < |l| ==> l[a].id != l[b].id
    ensures multiset(l)[l[i]] == 1
    decreases |l|
  {
    assert l == [l[0]] + l[1..];
    if i == 0 {
      assert forall b :: 0 <= b < |l| - 1 ==> l[1..][b].id != l[0].id;
      assert l[0] !in multiset(l[1..]);
    } else {
      assert l[1..][i - 1] == l[i];
      CountOne(l[1..], i - 1);
      assert l[0] != l[i] by {
        assert l[0].id != l[i].id;
      }
    }
  }

  /** A session at two positions is counted twice. */
  lemma {:induction false} CountedTwice(r: seq<ChatSession>, i: int, j: int)
    requires 0 <= i < j < |r| && r[i] == r[j]
    ensures multiset(r)[r[i]] >= 2
  {
    assert r == r[..j] + r[j..];
    assert r[i] == r[..j][i];
    assert r[j] == r[j..][0];
  }

  // Prompt assembly.

  function ToOllama(messages: seq<ChatMessage>): (r: seq<OllamaMessage>)
    ensures |r| == |messages|
    ensures forall i :: 0 <= i < |r| ==> r[i] == OllamaMessage(messages[i].role, messages[i].content)
  {
    if |messages| == 0 then []
    else [OllamaMessage(messages[0].role, messages[0].content)] + ToOllama(messages[1..])
  }

  /** `buildOllamaMessages`: the system prompt, then every stored message's role and content in order. */
  function BuildOllamaMessages(session: ChatSession, prompt: string): (r: seq<OllamaMessage>)
    ensures |r| == 1 + |session.messages|
    ensures r[0] == OllamaMessage(System, prompt)
    ensures forall i :: 0 <= i < |session.messages| ==>
      r[i + 1] == OllamaMessage(session.messages[i].role, session.messages[i].content)
  {
    [OllamaMessage(System, prompt)] + ToOllama(session.messages)
  }
}
