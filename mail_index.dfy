/**
 * The two lookup structures the script fills while it fetches messages
 * (improved.py, lines 108-121): `msgid_to_email`, from Message-ID to the
 * message's data, and `subject_threads`, from grouping key to the messages
 * with that key in arrival order.
 */
module MailIndex {
  import opened Subjects

  /** What the threading reads of one fetched message: its Message-ID (empty
    * when the header is missing), its In-Reply-To value (empty when missing),
    * its decoded subject and whether an In-Reply-To header is present. */
  datatype Message = Message(id: string, replyTo: string, subjectRaw: string, hasInReplyTo: bool)

  /** The grouping key of a message. */
  function Key(m: Message): string
  {
    NormalizeSubject(m.subjectRaw)
  }

  predicate NoDup<T(==)>(s: seq<T>)
  {
    forall i, j :: 0 <= i < j < |s| ==> s[i] != s[j]
  }

  /** `msgid_to_email` as a value: the dictionary and its keys in iteration
    * order (the order in which each key was first inserted). */
  datatype Index = Index(byId: map<string, Message>, keys: seq<string>)
  {
    /** Each key listed once, the list and the map agree, and every entry is
      * stored under its own Message-ID. */
    predicate Valid()
    {
      NoDup(keys) &&
      (forall k :: k in keys ==> k in byId) &&
      (forall k :: k in byId ==> k in keys) &&
      (forall k :: k in byId ==> byId[k].id == k)
    }
  }

  /** The dictionary after storing every message of `ms` in turn: the last
    * message stored under an id is the one kept. */
  function LastWins(ms: seq<Message>): map<string, Message>
  {
    if ms == [] then map[] else LastWins(ms[..|ms| - 1])[ms[|ms| - 1].id := ms[|ms| - 1]]
  }

  /** The dictionary's key order after storing `ms`: a key keeps the position
    * of its first insertion when it is overwritten. */
  function FirstSeenIds(ms: seq<Message>): seq<string>
  {
    if ms == [] then []
    else
      var ks := FirstSeenIds(ms[..|ms| - 1]);
      if ms[|ms| - 1].id in ks then ks else ks + [ms[|ms| - 1].id]
  }

  /** The index built from the fetched messages. */
  function BuildIndex(ms: seq<Message>): Index
  {
    Index(LastWins(ms), FirstSeenIds(ms))
  }

  /** The keys of `subject_threads` in first-seen order. */
  function FirstSeenSubjects(ms: seq<Message>): seq<string>
  {
    if ms == [] then []
    else
      var ss := FirstSeenSubjects(ms[..|ms| - 1]);
      if Key(ms[|ms| - 1]) in ss then ss else ss + [Key(ms[|ms| - 1])]
  }

  /** The list `subject_threads[s]`: the fetched messages with key `s`, in
    * arrival order, repeated messages included. */
  function GroupOf(ms: seq<Message>, s: string): seq<Message>
  {
    if ms == [] then []
    else if Key(ms[|ms| - 1]) == s then GroupOf(ms[..|ms| - 1], s) + [ms[|ms| - 1]]
    else GroupOf(ms[..|ms| - 1], s)
  }

  /** One more message: how each of the structures above grows. */
  lemma StoreOneMore(ms: seq<Message>, m: Message)
    ensures LastWins(ms + [m]) == LastWins(ms)[m.id := m]
    ensures FirstSeenIds(ms + [m]) == if m.id in FirstSeenIds(ms) then FirstSeenIds(ms) else FirstSeenIds(ms) + [m.id]
    ensures FirstSeenSubjects(ms + [m]) ==
              if Key(m) in FirstSeenSubjects(ms) then FirstSeenSubjects(ms) else FirstSeenSubjects(ms) + [Key(m)]
    ensures forall s :: GroupOf(ms + [m], s) == if Key(m) == s then GroupOf(ms, s) + [m] else GroupOf(ms, s)
  {
    assert (ms + [m])[..|ms|] == ms;
  }

  /** Every fetched id is a key, and each key holds a fetched message with
    * that id. */
  lemma {:induction false} LastWinsDomain(ms: seq<Message>)
    ensures forall i :: 0 <= i < |ms| ==> ms[i].id in LastWins(ms)
    ensures forall k :: k in LastWins(ms) ==> LastWins(ms)[k].id == k && LastWins(ms)[k] in ms
  {
    if ms != [] {
      var init, last := ms[..|ms| - 1], ms[|ms| - 1];
      assert ms == init + [last];
      LastWinsDomain(init);
    }
  }

  /** Last write wins: a message not followed by another with the same id is
    * the one stored under that id. */
  lemma {:induction false} LastWinsKeepsLast(ms: seq<Message>, i: nat)
    requires i < |ms|
    requires forall j :: i < j < |ms| ==> ms[j].id != ms[i].id
    ensures ms[i].id in LastWins(ms) && LastWins(ms)[ms[i].id] == ms[i]
  {
    if i < |ms| - 1 {
      var init := ms[..|ms| - 1];
      LastWinsKeepsLast(init, i);
    }
  }

  /** The built index is well formed. */
  lemma {:induction false} BuildIndexValid(ms: seq<Message>)
    ensures BuildIndex(ms).Valid()
  {
    if ms != [] {
      var init := ms[..|ms| - 1];
      BuildIndexValid(init);
      LastWinsDomain(init);
    }
  }

  /** The subject keys are listed once each, and a key is listed exactly when
    * its group is not empty. */
  lemma {:induction false} FirstSeenSubjectsGroups(ms: seq<Message>)
    ensures NoDup(FirstSeenSubjects(ms))
    ensures forall s :: s in FirstSeenSubjects(ms) <==> GroupOf(ms, s) != []
  {
    if ms != [] {
      FirstSeenSubjectsGroups(ms[..|ms| - 1]);
    }
  }

  /** A group holds only messages with its key, and each of those as many
    * times as it was fetched. */
  lemma {:induction false} GroupKeepsEveryCopy(ms: seq<Message>, s: string)
    ensures forall m :: m in GroupOf(ms, s) ==> Key(m) == s
    ensures forall m :: Key(m) == s ==> multiset(GroupOf(ms, s))[m] == multiset(ms)[m]
  {
    if ms != [] {
      var init, last := ms[..|ms| - 1], ms[|ms| - 1];
      assert ms == init + [last];
      GroupKeepsEveryCopy(init, s);
    }
  }

  /** The store's fields are what storing `fetched` in turn produces. */
  ghost predicate Tracks(byId: map<string, Message>, keys: seq<string>, groups: map<string, seq<Message>>,
                         subjects: seq<string>, fetched: seq<Message>)
  {
    byId == LastWins(fetched) &&
    keys == FirstSeenIds(fetched) &&
    subjects == FirstSeenSubjects(fetched) &&
    (forall s :: s in groups <==> s in subjects) &&
    (forall s :: s in groups ==> groups[s] == GroupOf(fetched, s))
  }

  /** Lines 120-121 keep the fields in step with the fetched messages. */
  lemma TracksOneMore(byId: map<string, Message>, keys: seq<string>, groups: map<string, seq<Message>>,
                      subjects: seq<string>, fetched: seq<Message>, m: Message)
    requires Tracks(byId, keys, groups, subjects, fetched)
    ensures Tracks(byId[m.id := m], if m.id in byId then keys else keys + [m.id],
                   groups[Key(m) := (if Key(m) in groups then groups[Key(m)] else []) + [m]],
                   if Key(m) in groups then subjects else subjects + [Key(m)], fetched + [m])
  {
    StoreOneMore(fetched, m);
    var key := Key(m);
    var groups' := groups[key := (if key in groups then groups[key] else []) + [m]];
    var subjects' := if key in groups then subjects else subjects + [key];
    assert m.id in byId <==> m.id in keys by {
      BuildIndexValid(fetched);
    }
    assert GroupOf(fetched + [m], key) == groups'[key] by {
      FirstSeenSubjectsGroups(fetched);
    }
    assert forall s :: s in groups' <==> s in subjects';
    forall s | s in groups'
      ensures groups'[s] == GroupOf(fetched + [m], s)
    {
    }
    assert byId[m.id := m] == LastWins(fetched + [m]);
    assert (if m.id in byId then keys else keys + [m.id]) == FirstSeenIds(fetched + [m]);
    assert subjects' == FirstSeenSubjects(fetched + [m]);
  }

  /**
   * The store filled in the fetch loop. `fetched` is the sequence of messages
   * stored so far; every field is a function of it.
   */
  class MessageStore {
    var byId: map<string, Message>
    var keys: seq<string>
    var groups: map<string, seq<Message>>
    var subjects: seq<string>
    ghost var fetched: seq<Message>

    ghost predicate Valid()
      reads this
    {
      Tracks(byId, keys, groups, subjects, fetched)
    }

    /** `msgid_to_email` with its key order, as a value. */
    function Snapshot(): (ix: Index)
      reads this
      requires Valid()
      ensures ix == BuildIndex(fetched) && ix.Valid()
    {
      BuildIndexValid(fetched);
      Index(byId, keys)
    }

    constructor ()
      ensures Valid() && fetched == []
      ensures byId == map[] && keys == [] && groups == map[] && subjects == []
    {
      byId, keys, groups, subjects := map[], [], map[], [];
      fetched := [];
    }

    /** Lines 120-121: store `m` under its Message-ID (a new key goes last,
      * an existing key keeps its place) and append it to its subject group. */
    method Add(m: Message)
      requires Valid()
      modifies this
      ensures Valid()
      ensures fetched == old(fetched) + [m]
      ensures byId == old(byId)[m.id := m]
      ensures keys == if m.id in old(byId) then old(keys) else old(keys) + [m.id]
      ensures subjects == if Key(m) in old(groups) then old(subjects) else old(subjects) + [Key(m)]
      ensures groups == old(groups)[Key(m) := (if Key(m) in old(groups) then old(groups)[Key(m)] else []) + [m]]
    {
      TracksOneMore(byId, keys, groups, subjects, fetched, m);
      var key := Key(m);
      var group := if key in groups then groups[key] else [];
      fetched := fetched + [m];
      if m.id !in byId {
        keys := keys + [m.id];
      }
      byId := byId[m.id := m];
      if key !in groups {
        subjects := subjects + [key];
      }
      groups := groups[key := group + [m]];
    }
  }
}
