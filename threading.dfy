/**
 * Linking the fetched messages into reply chains (improved.py, lines
 * 127-174): the walk from a message up to its root, the breadth-first
 * collection of one chain, the loop over one subject group and the loop over
 * all groups.
 */
module Threading {
  import opened Subjects
  import opened MailIndex

  datatype Option<T> = None | Some(value: T)

  /** One entry of a thread's "Chains" list. */
  datatype Chain = Chain(kind: string, messages: seq<Message>)

  /** One entry of `output_threads`. */
  datatype Thread = Thread(subject: string, chains: seq<Chain>)

  /** The "Type" every emitted chain carries. */
  const NewMail: string := "New Mail"

  // ---------------------------------------------------------------------
  // The root walk (lines 135-141)
  // ---------------------------------------------------------------------

  /** One step of the root walk: the In-Reply-To of `id`'s entry when it is
    * not empty and is itself a key of the index. An id that is not a key has
    * no entry, hence no parent. */
  function Parent(ix: Index, id: string): Option<string>
  {
    if id in ix.byId && ix.byId[id].replyTo != "" && ix.byId[id].replyTo in ix.byId
    then Some(ix.byId[id].replyTo)
    else None
  }

  /** Where the root walk from `id` is after `n` steps; it stays put once it
    * reaches an id without a parent. */
  function Climb(ix: Index, id: string, n: nat): string
    decreases n
  {
    if n == 0 then id
    else match Parent(ix, id)
      case None => id
      case Some(p) => Climb(ix, p, n - 1)
  }

  /** The root walk from `id` stops: after as many steps as the index has
    * keys it stands on an id without a parent (`WalkEndsIfEverEnds` shows
    * this is the same as stopping at all). */
  predicate WalkEnds(ix: Index, id: string)
  {
    Parent(ix, Climb(ix, id, |ix.byId|)) == None
  }

  /** Step `n + 1` of the walk moves from where step `n` stood to its parent. */
  lemma {:induction false} ClimbStep(ix: Index, id: string, n: nat)
    decreases n
    ensures Climb(ix, id, n + 1) ==
              match Parent(ix, Climb(ix, id, n))
              case None => Climb(ix, id, n)
              case Some(p) => p
  {
    if n > 0 {
      match Parent(ix, id)
      case None =>
      case Some(q) => ClimbStep(ix, q, n - 1);
    }
  }

  /** Once the walk stands on a root it stays there. */
  lemma {:induction false} ClimbStaysAtRoot(ix: Index, id: string, k: nat, n: nat)
    requires k <= n && Parent(ix, Climb(ix, id, k)) == None
    ensures Climb(ix, id, n) == Climb(ix, id, k)
  {
    if k < n {
      ClimbStaysAtRoot(ix, id, k, n - 1);
      ClimbStep(ix, id, n - 1);
    }
  }

  /** Walking `a` steps and then `b` steps is walking `a + b` steps. */
  lemma {:induction false} ClimbAdds(ix: Index, id: string, a: nat, b: nat)
    ensures Climb(ix, Climb(ix, id, a), b) == Climb(ix, id, a + b)
    decreases a
  {
    if a > 0 {
      match Parent(ix, id)
      case None =>
        assert Climb(ix, id, a) == id;
        ClimbStaysAtRoot(ix, id, 0, b);
        ClimbStaysAtRoot(ix, id, 0, a + b);
      case Some(p) =>
        ClimbAdds(ix, p, a - 1, b);
    }
  }

  /** Two messages that reply to each other (or one that replies to itself)
    * trap the walk: it never reaches a root. */
  lemma {:induction false} MutualRepliesTrapWalk(ix: Index, a: string, b: string, n: nat)
    requires Parent(ix, a) == Some(b) && Parent(ix, b) == Some(a)
    ensures Climb(ix, a, n) == a || Climb(ix, a, n) == b
    ensures Parent(ix, Climb(ix, a, n)) != None
    decreases n
  {
    if n > 0 {
      MutualRepliesTrapWalk(ix, b, a, n - 1);
    }
  }

  /** So the source loops forever on such a pair. */
  lemma CycleBlocksWalk(ix: Index, a: string, b: string)
    requires Parent(ix, a) == Some(b) && Parent(ix, b) == Some(a)
    ensures !WalkEnds(ix, a) && !WalkEnds(ix, b)
  {
    MutualRepliesTrapWalk(ix, a, b, |ix.byId|);
    MutualRepliesTrapWalk(ix, b, a, |ix.byId|);
  }

  /** A sequence without repetitions has as many distinct elements as it is long. */
  lemma {:induction false} DistinctCount(s: seq<string>)
    requires NoDup(s)
    ensures |set x | x in s| == |s|
  {
    if s != [] {
      var t := s[..|s| - 1];
      DistinctCount(t);
      assert (set x | x in s) == (set x | x in t) + {s[|s| - 1]};
    }
  }

  /** Pigeonhole: more elements than a set holds means a repetition. */
  lemma Pigeonhole(s: seq<string>, keys: set<string>)
    requires forall x :: x in s ==> x in keys
    requires |s| > |keys|
    ensures !NoDup(s)
  {
    if NoDup(s) {
      DistinctCount(s);
      assert (set x | x in s) <= keys;
      SubsetCount((set x | x in s), keys);
      assert false;
    }
  }

  lemma {:induction false} SubsetCount(a: set<string>, b: set<string>)
    requires a <= b
    ensures |a| <= |b|
    decreases |a|
  {
    if a != {} {
      var x :| x in a;
      SubsetCount(a - {x}, b - {x});
    }
  }

  /** Every step of a walk that has not ended by step `N` stands on an id
    * with a parent, up to step `N`. */
  lemma PrefixHasParents(ix: Index, id: string, k: nat, n: nat)
    requires k <= n && Parent(ix, Climb(ix, id, n)) != None
    ensures Parent(ix, Climb(ix, id, k)) != None
  {
    if Parent(ix, Climb(ix, id, k)) == None {
      ClimbStaysAtRoot(ix, id, k, n);
    }
  }

  /** When the walk revisits an id (step `i` and step `j` stand on the same
    * one) and has not ended by step `j`, it never ends. */
  lemma {:induction false} RevisitNeverEnds(ix: Index, id: string, i: nat, j: nat, m: nat)
    requires i < j && Climb(ix, id, i) == Climb(ix, id, j)
    requires forall k :: 0 <= k <= j ==> Parent(ix, Climb(ix, id, k)) != None
    ensures Parent(ix, Climb(ix, id, m)) != None
    decreases m
  {
    if m > j {
      ClimbAdds(ix, id, j, m - j);
      ClimbAdds(ix, id, i, m - j);
      RevisitNeverEnds(ix, id, i, j, m - (j - i));
    }
  }

  /** The walk's precondition is exactly termination of the source's loop:
    * if the walk ever stands on a root, it does so within |index| steps. */
  lemma WalkEndsIfEverEnds(ix: Index, id: string, n: nat)
    requires Parent(ix, Climb(ix, id, n)) == None
    ensures WalkEnds(ix, id)
  {
    var N := |ix.byId|;
    if n <= N {
      ClimbStaysAtRoot(ix, id, n, N);
    } else if !WalkEnds(ix, id) {
      forall k | 0 <= k <= N
        ensures Parent(ix, Climb(ix, id, k)) != None
      {
        PrefixHasParents(ix, id, k, N);
      }
      var path := seq(N + 1, k requires 0 <= k <= N => Climb(ix, id, k));
      Pigeonhole(path, ix.byId.Keys);
      var i, j :| 0 <= i < j < |path| && path[i] == path[j];
      RevisitNeverEnds(ix, id, i, j, n);
    }
  }

  /** Lines 135-141: walk up from `start` while the In-Reply-To names an
    * indexed message. The source has no cycle guard, so this requires that
    * the walk ends. */
  method FindRoot(ix: Index, start: string) returns (root: string)
    requires WalkEnds(ix, start)
    ensures Parent(ix, root) == None
    ensures root == Climb(ix, start, |ix.byId|)
    ensures root in ix.byId <==> start in ix.byId
  {
    root := start;
    ghost var steps := 0;
    while true
      invariant steps <= |ix.byId|
      invariant root == Climb(ix, start, steps)
      invariant root in ix.byId <==> start in ix.byId
      decreases |ix.byId| - steps
    {
      var parent := if root in ix.byId then ix.byId[root].replyTo else "";
      ClimbStep(ix, start, steps);
      if parent != "" && parent in ix.byId {
        root := parent;
        steps := steps + 1;
      } else {
        break;
      }
    }
    ClimbStaysAtRoot(ix, start, steps, |ix.byId|);
  }

  /** A message that replies to itself: the source's walk never ends. */
  lemma SelfReplyHangs(m: Message)
    requires m.id != "" && m.replyTo == m.id
    ensures !WalkEnds(Index(map[m.id := m], [m.id]), m.id)
  {
    CycleBlocksWalk(Index(map[m.id := m], [m.id]), m.id, m.id);
  }

  /** The walk with the bound the source lacks: at most one step per index
    * key. It always stops, and it stops where the source's walk does
    * whenever that one stops (`WalkEndsIfEverEnds`); on a cycle it stops
    * on a message of the cycle. */
  method FindRootCapped(ix: Index, start: string) returns (root: string)
    ensures root == Climb(ix, start, |ix.byId|)
    ensures root in ix.byId <==> start in ix.byId
  {
    root := start;
    var steps := 0;
    while steps < |ix.byId|
      invariant steps <= |ix.byId|
      invariant root == Climb(ix, start, steps)
      invariant root in ix.byId <==> start in ix.byId
    {
      var parent := if root in ix.byId then ix.byId[root].replyTo else "";
      ClimbStep(ix, start, steps);
      if parent != "" && parent in ix.byId {
        root := parent;
        steps := steps + 1;
      } else {
        ClimbStaysAtRoot(ix, start, steps, |ix.byId|);
        return;
      }
    }
  }

  // ---------------------------------------------------------------------
  // Direct replies and the breadth-first chain (lines 143-160)
  // ---------------------------------------------------------------------

  /** Line 157: `c` counts as a direct reply to `p` when the stripped
    * In-Reply-To of `c`'s entry equals the stripped `p`. */
  predicate ChildOf(ix: Index, c: string, p: string)
  {
    c in ix.byId && Strip(ix.byId[c].replyTo) == Strip(p)
  }

  /** The direct replies of `p` among `ks`, in the order of `ks`. */
  function RepliesAmong(ix: Index, ks: seq<string>, p: string): (r: seq<string>)
    ensures forall c :: c in r <==> c in ks && ChildOf(ix, c, p)
  {
    if ks == [] then []
    else (if ChildOf(ix, ks[0], p) then [ks[0]] else []) + RepliesAmong(ix, ks[1..], p)
  }

  /** Lines 155-158: the direct replies of `p`, in the index's key order. */
  function Replies(ix: Index, p: string): (r: seq<string>)
    requires ix.Valid()
    ensures forall c :: c in r <==> ChildOf(ix, c, p)
  {
    RepliesAmong(ix, ix.keys, p)
  }

  /** The Message-IDs of a list of messages, in order. */
  function Ids(ms: seq<Message>): (r: seq<string>)
    ensures |r| == |ms| && forall k :: 0 <= k < |ms| ==> r[k] == ms[k].id
  {
    seq(|ms|, k requires 0 <= k < |ms| => ms[k].id)
  }

  /** `c` is a direct reply to one of `ids`. */
  ghost predicate HasParentIn(ix: Index, c: string, ids: seq<string>)
  {
    exists j :: 0 <= j < |ids| && ChildOf(ix, c, ids[j])
  }

  lemma HasParentInGrows(ix: Index, c: string, ids: seq<string>, more: seq<string>)
    requires HasParentIn(ix, c, ids)
    ensures HasParentIn(ix, c, ids + more)
  {
    var j :| 0 <= j < |ids| && ChildOf(ix, c, ids[j]);
    assert (ids + more)[j] == ids[j];
  }

  /** `visited` holds every direct reply of each of its ids. */
  ghost predicate Closed(ix: Index, visited: set<string>)
  {
    forall x, c :: x in visited && ChildOf(ix, c, x) ==> c in visited
  }

  /** A chain as the breadth-first loop grows it: index entries not visited
    * before, each once, starting at `root`, every later message a direct
    * reply to an earlier one. */
  ghost predicate ChainFrom(ix: Index, root: string, visited0: set<string>, chain: seq<Message>)
  {
    (forall k :: 0 <= k < |chain| ==>
       chain[k].id in ix.byId && ix.byId[chain[k].id] == chain[k] && chain[k].id !in visited0) &&
    NoDup(Ids(chain)) &&
    (chain != [] ==> chain[0].id == root) &&
    (forall k :: 0 < k < |chain| ==> HasParentIn(ix, chain[k].id, Ids(chain)[..k]))
  }

  /** The state the breadth-first loop keeps: `visited` is what it started
    * with plus the chain; the queue holds indexed ids, each a direct reply to
    * a chain message once the chain has started; and every direct reply of a
    * chain message is visited or still queued. */
  ghost predicate Frontier(ix: Index, root: string, visited0: set<string>,
                           chain: seq<Message>, visited: set<string>, queue: seq<string>)
  {
    ChainFrom(ix, root, visited0, chain) &&
    (forall q :: q in queue ==> q in ix.byId) &&
    (forall x :: x in visited <==> x in visited0 || x in Ids(chain)) &&
    (chain == [] ==> queue == [root] || (queue == [] && root in visited0)) &&
    (root in visited0 ==> chain == []) &&
    (chain != [] ==> forall q :: q in queue ==> HasParentIn(ix, q, Ids(chain))) &&
    (forall x, c :: x in Ids(chain) && ChildOf(ix, c, x) ==> c in visited || c in queue)
  }

  /** Appending the entry of a queued, unvisited id keeps the chain a chain. */
  lemma ChainGrows(ix: Index, root: string, visited0: set<string>, chain: seq<Message>,
                   visited: set<string>, queue: seq<string>)
    requires ix.Valid()
    requires Frontier(ix, root, visited0, chain, visited, queue)
    requires queue != [] && queue[0] !in visited && queue[0] in ix.byId
    ensures Ids(chain + [ix.byId[queue[0]]]) == Ids(chain) + [queue[0]]
    ensures ChainFrom(ix, root, visited0, chain + [ix.byId[queue[0]]])
  {
    var current := queue[0];
    var before := Ids(chain);
    var after := chain + [ix.byId[current]];
    assert Ids(after) == before + [current];
    NoDupJoin(before, [current]);
    forall k | 0 < k < |after|
      ensures HasParentIn(ix, after[k].id, Ids(after)[..k])
    {
      if k < |before| {
        assert Ids(after)[..k] == before[..k];
      } else {
        assert Ids(after)[..k] == before;
      }
    }
  }

  /** Skipping a visited id keeps the loop's state. */
  lemma FrontierSkip(ix: Index, root: string, visited0: set<string>, chain: seq<Message>,
                     visited: set<string>, queue: seq<string>)
    requires Frontier(ix, root, visited0, chain, visited, queue)
    requires queue != [] && queue[0] in visited
    ensures Frontier(ix, root, visited0, chain, visited, queue[1..])
  {
  }

  /** Visiting an indexed id keeps the loop's state: its entry joins the
    * chain and its direct replies join the queue. */
  lemma FrontierVisit(ix: Index, root: string, visited0: set<string>, chain: seq<Message>,
                      visited: set<string>, queue: seq<string>)
    requires ix.Valid()
    requires Frontier(ix, root, visited0, chain, visited, queue)
    requires queue != [] && queue[0] !in visited && queue[0] in ix.byId
    ensures Frontier(ix, root, visited0, chain + [ix.byId[queue[0]]], visited + {queue[0]},
                     queue[1..] + Replies(ix, queue[0]))
  {
    var current := queue[0];
    var after := chain + [ix.byId[current]];
    ChainGrows(ix, root, visited0, chain, visited, queue);
    var ids := Ids(after);
    assert ids[|chain|] == current;
    var rest := queue[1..] + Replies(ix, current);
    forall q | q in rest
      ensures HasParentIn(ix, q, ids)
    {
      if q in queue[1..] {
        HasParentInGrows(ix, q, Ids(chain), [current]);
      }
    }
  }

  /** What the breadth-first loop hands back: the chain, in the order its
    * messages were reached, and the grown `visited` set. */
  datatype Collected = Collected(chain: seq<Message>, visited: set<string>)

  /** Lines 147-159 as a function: the loop run on `queue` and `visited`. The
    * front id is popped (line 148) and skipped when visited; otherwise it is
    * marked visited and, when it has an entry (line 152), the entry joins
    * the chain and its direct replies join the back of the queue, in key
    * order. Popping from the front makes the order breadth-first. */
  function BreadthFirst(ix: Index, queue: seq<string>, visited: set<string>): Collected
    requires ix.Valid()
    decreases ix.byId.Keys - visited, |queue|
  {
    if queue == [] then Collected([], visited)
    else if queue[0] in visited then BreadthFirst(ix, queue[1..], visited)
    else if queue[0] !in ix.byId then
      assert ix.byId.Keys - (visited + {queue[0]}) == ix.byId.Keys - visited;
      BreadthFirst(ix, queue[1..], visited + {queue[0]})
    else
      var rest := BreadthFirst(ix, queue[1..] + Replies(ix, queue[0]), visited + {queue[0]});
      Collected([ix.byId[queue[0]]] + rest.chain, rest.visited)
  }

  /** The chain built so far followed by what the rest of the loop adds is
    * `total`, what the loop builds from the start. */
  ghost predicate Resumes(ix: Index, total: Collected,
                          chain: seq<Message>, visited: set<string>, queue: seq<string>)
    requires ix.Valid()
  {
    var rest := BreadthFirst(ix, queue, visited);
    total == Collected(chain + rest.chain, rest.visited)
  }

  /** Skipping a visited id changes nothing still to come. */
  lemma ResumesSkip(ix: Index, total: Collected, chain: seq<Message>,
                    visited: set<string>, queue: seq<string>)
    requires ix.Valid()
    requires Resumes(ix, total, chain, visited, queue)
    requires queue != [] && queue[0] in visited
    ensures Resumes(ix, total, chain, visited, queue[1..])
  {
  }

  /** The loop starts with nothing built and ends with nothing to come. */
  lemma ResumesEnds(ix: Index, root: string, visited0: set<string>, chain: seq<Message>, visited: set<string>)
    requires ix.Valid()
    ensures Resumes(ix, BreadthFirst(ix, [root], visited0), [], visited0, [root])
    ensures Resumes(ix, BreadthFirst(ix, [root], visited0), chain, visited, []) ==>
              BreadthFirst(ix, [root], visited0) == Collected(chain, visited)
  {
    assert [] + BreadthFirst(ix, [root], visited0).chain == BreadthFirst(ix, [root], visited0).chain;
    assert chain + [] == chain;
  }

  /** Visiting an indexed id moves its entry from what is still to come to
    * the chain built so far. */
  lemma ResumesVisit(ix: Index, total: Collected, chain: seq<Message>,
                     visited: set<string>, queue: seq<string>)
    requires ix.Valid()
    requires Resumes(ix, total, chain, visited, queue)
    requires queue != [] && queue[0] !in visited && queue[0] in ix.byId
    ensures Resumes(ix, total, chain + [ix.byId[queue[0]]], visited + {queue[0]},
                    queue[1..] + Replies(ix, queue[0]))
  {
    var entry := ix.byId[queue[0]];
    var rest := BreadthFirst(ix, queue[1..] + Replies(ix, queue[0]), visited + {queue[0]});
    assert BreadthFirst(ix, queue, visited) == Collected([entry] + rest.chain, rest.visited);
    assert chain + ([entry] + rest.chain) == chain + [entry] + rest.chain;
  }

  /** Lines 144-159 (`build_full_chain` after the walk): breadth-first from
    * `root` over direct replies, skipping ids already in `visited`, which is
    * shared by all the chains of one subject group. */
  method CollectChain(ix: Index, root: string, visited0: set<string>)
    returns (chain: seq<Message>, visited: set<string>)
    requires ix.Valid() && root in ix.byId
    // the chain and the new `visited` are exactly what the loop computes,
    // messages in breadth-first order
    ensures BreadthFirst(ix, [root], visited0) == Collected(chain, visited)
    // the chain is made of index entries not visited before, each once, it
    // starts at the root and every later message replies to an earlier one
    ensures ChainFrom(ix, root, visited0, chain)
    // `visited` grows by exactly the chain's ids
    ensures forall x :: x in visited <==> x in visited0 || x in Ids(chain)
    // the chain is empty exactly when the root was visited already
    ensures chain == [] <==> root in visited0
    // every direct reply of a chain message has been visited
    ensures forall x, c :: x in Ids(chain) && ChildOf(ix, c, x) ==> c in visited
  {
    chain, visited := [], visited0;
    var queue := [root];
    ghost var total := BreadthFirst(ix, [root], visited0);
    ResumesEnds(ix, root, visited0, chain, visited);
    while queue != []
      invariant Frontier(ix, root, visited0, chain, visited, queue)
      invariant Resumes(ix, total, chain, visited, queue)
      decreases ix.byId.Keys - visited, |queue|
    {
      var current := queue[0];
      if current in visited {
        FrontierSkip(ix, root, visited0, chain, visited, queue);
        ResumesSkip(ix, total, chain, visited, queue);
        queue := queue[1..];
        continue;
      }
      // every queued id is a key, so the entry looked up at line 151 exists
      FrontierVisit(ix, root, visited0, chain, visited, queue);
      ResumesVisit(ix, total, chain, visited, queue);
      queue := queue[1..];
      visited := visited + {current};
      var entry := ix.byId[current];
      chain := chain + [entry];
      queue := queue + Replies(ix, current);
    }
    ResumesEnds(ix, root, visited0, chain, visited);
  }

  // ---------------------------------------------------------------------
  // One subject group (lines 129-169)
  // ---------------------------------------------------------------------

  /** The ids of all the chains, chain after chain. */
  function AllIds(chains: seq<Chain>): seq<string>
  {
    if chains == [] then [] else AllIds(chains[..|chains| - 1]) + Ids(chains[|chains| - 1].messages)
  }

  /** What an emitted chain is: tagged "New Mail", not empty, made of index
    * entries, and every later message a direct reply to an earlier one. */
  ghost predicate IsChain(ix: Index, c: Chain)
  {
    c.kind == NewMail && c.messages != [] &&
    (forall k :: 0 <= k < |c.messages| ==> c.messages[k].id in ix.byId && ix.byId[c.messages[k].id] == c.messages[k]) &&
    (forall k :: 0 < k < |c.messages| ==> HasParentIn(ix, c.messages[k].id, Ids(c.messages)[..k]))
  }

  /** `r` is where the bounded root walk from some message of the group
    * stops; when that walk ends, `r` has no parent (`WalkEnds`). */
  ghost predicate RootOfMember(ix: Index, group: seq<Message>, r: string)
  {
    exists k :: 0 <= k < |group| && r == Climb(ix, group[k].id, |ix.byId|)
  }

  /** What the chains of one subject group satisfy: each is a chain rooted
    * where the walk from a group member ends, no id appears twice across
    * them, every member of the group appears, and every direct reply of an
    * id that appears appears too. */
  ghost predicate GroupChains(ix: Index, group: seq<Message>, chains: seq<Chain>)
  {
    (forall c :: c in chains ==> IsChain(ix, c) && RootOfMember(ix, group, c.messages[0].id)) &&
    NoDup(AllIds(chains)) &&
    (forall k :: 0 <= k < |group| ==> group[k].id in AllIds(chains)) &&
    (forall x, c :: x in AllIds(chains) && ChildOf(ix, c, x) ==> c in AllIds(chains))
  }

  lemma NoDupJoin(a: seq<string>, b: seq<string>)
    requires NoDup(a) && NoDup(b) && forall x :: x in b ==> x !in a
    ensures NoDup(a + b)
  {
    forall i, j | 0 <= i < j < |a + b|
      ensures (a + b)[i] != (a + b)[j]
    {
      if j >= |a| && i < |a| {
        assert (a + b)[j] in b;
      }
    }
  }

  /** A set closed under direct replies that holds the end of a message's
    * walk holds the message: each step of the walk is undone by a reply. */
  lemma {:induction false} ClimbBackIntoClosed(ix: Index, visited: set<string>, m: string, n: nat)
    requires Closed(ix, visited)
    requires m in ix.byId && Climb(ix, m, n) in visited
    ensures m in visited
    decreases n
  {
    if n > 0 {
      match Parent(ix, m)
      case None =>
      case Some(p) =>
        ClimbBackIntoClosed(ix, visited, p, n - 1);
        assert ChildOf(ix, m, p);
    }
  }

  /** Every chain so far is well formed and opens where the walk from a
    * member of the group stops. */
  ghost predicate ChainsOfGroup(ix: Index, group: seq<Message>, chains: seq<Chain>)
  {
    forall c :: c in chains ==> IsChain(ix, c) && RootOfMember(ix, group, c.messages[0].id)
  }

  /** No id appears twice across the chains, and `visited` is their ids. */
  ghost predicate IdsAre(chains: seq<Chain>, visited: set<string>)
  {
    NoDup(AllIds(chains)) && forall x :: x in visited <==> x in AllIds(chains)
  }

  /** The first `i` members of the group are visited. */
  ghost predicate Covers(group: seq<Message>, i: nat, visited: set<string>)
  {
    i <= |group| && forall k :: 0 <= k < i ==> group[k].id in visited
  }

  /** The ids of one more chain follow the ids of the chains before it. */
  lemma AllIdsSnoc(chains: seq<Chain>, c: Chain)
    ensures AllIds(chains + [c]) == AllIds(chains) + Ids(c.messages)
  {
    assert (chains + [c])[..|chains|] == chains;
  }

  /** The walk from an unvisited message stops on an unvisited message, so
    * the chain collected for an unvisited group member is never empty (the
    * test on line 165 always passes). */
  lemma UnvisitedRoot(ix: Index, visited: set<string>, m: string)
    requires Closed(ix, visited) && m in ix.byId && m !in visited
    ensures Climb(ix, m, |ix.byId|) !in visited
  {
    if Climb(ix, m, |ix.byId|) in visited {
      ClimbBackIntoClosed(ix, visited, m, |ix.byId|);
    }
  }

  /** After collecting from the root of an unvisited member, `visited` is
    * still closed under direct replies and now holds that member. */
  lemma CollectedClosed(ix: Index, m: string, visited: set<string>,
                        root: string, chain: seq<Message>, visited': set<string>)
    requires Closed(ix, visited) && m in ix.byId
    requires root == Climb(ix, m, |ix.byId|)
    requires chain != [] ==> chain[0].id == root
    requires forall x :: x in visited' <==> x in visited || x in Ids(chain)
    requires chain == [] <==> root in visited
    requires forall x, c :: x in Ids(chain) && ChildOf(ix, c, x) ==> c in visited'
    ensures Closed(ix, visited') && m in visited'
  {
    if chain != [] {
      assert Ids(chain)[0] == root;
    }
    ClimbBackIntoClosed(ix, visited', m, |ix.byId|);
  }

  /** One more visited member; `visited` only grows. */
  lemma CoversMore(group: seq<Message>, i: nat, visited: set<string>, visited': set<string>)
    requires Covers(group, i, visited) && i < |group|
    requires visited <= visited' && group[i].id in visited'
    ensures Covers(group, i + 1, visited')
  {
  }

  /** The ids after appending a chain: still no repetition, and exactly the
    * grown `visited`. */
  lemma AppendIds(chains: seq<Chain>, visited: set<string>, c: Chain, visited': set<string>)
    requires IdsAre(chains, visited)
    requires NoDup(Ids(c.messages)) && (forall k :: 0 <= k < |c.messages| ==> c.messages[k].id !in visited)
    requires forall x :: x in visited' <==> x in visited || x in Ids(c.messages)
    ensures IdsAre(chains + [c], visited')
  {
    AllIdsSnoc(chains, c);
    NoDupJoin(AllIds(chains), Ids(c.messages));
  }

  /** A chain collected from the root of a group member joins the chains as
    * a well-formed one. */
  lemma AppendChain(ix: Index, group: seq<Message>, i: nat, chains: seq<Chain>,
                    root: string, visited: set<string>, chain: seq<Message>)
    requires ChainsOfGroup(ix, group, chains)
    requires i < |group| && root == Climb(ix, group[i].id, |ix.byId|)
    requires ChainFrom(ix, root, visited, chain) && chain != []
    ensures ChainsOfGroup(ix, group, chains + [Chain(NewMail, chain)])
  {
    assert IsChain(ix, Chain(NewMail, chain)) && RootOfMember(ix, group, root);
  }

  /** After the whole group the chains are what `GroupChains` says. */
  lemma GroupDone(ix: Index, group: seq<Message>, chains: seq<Chain>, visited: set<string>)
    requires ChainsOfGroup(ix, group, chains) && IdsAre(chains, visited)
    requires Covers(group, |group|, visited) && Closed(ix, visited)
    ensures GroupChains(ix, group, chains)
  {
    forall x, c | x in AllIds(chains) && ChildOf(ix, c, x)
      ensures c in AllIds(chains)
    {
      assert x in visited;
    }
  }

  /** Lines 162-169 as a function: the chains the loop over `group` emits
    * when it starts with `visited`. A visited member is skipped; otherwise
    * the walk from it gives a root, the breadth-first loop from that root
    * gives a chain and the grown `visited`, and the chain is emitted when it
    * is not empty. So chains come in the order of the members that open
    * them, and the first chain to reach a message keeps it. */
  function GroupLoop(ix: Index, group: seq<Message>, visited: set<string>): seq<Chain>
    requires ix.Valid()
    decreases |group|
  {
    if group == [] then []
    else if group[0].id in visited then GroupLoop(ix, group[1..], visited)
    else
      var c := BreadthFirst(ix, [Climb(ix, group[0].id, |ix.byId|)], visited);
      (if c.chain != [] then [Chain(NewMail, c.chain)] else []) + GroupLoop(ix, group[1..], c.visited)
  }

  /** The chains emitted for the first `i` members followed by what the
    * rest of the loop emits are what the loop emits for the whole group. */
  ghost predicate Emitted(ix: Index, group: seq<Message>, i: nat, chains: seq<Chain>, visited: set<string>)
    requires ix.Valid() && i <= |group|
  {
    chains + GroupLoop(ix, group[i..], visited) == GroupLoop(ix, group, {})
  }

  /** Skipping a visited member emits nothing. */
  lemma EmittedSkip(ix: Index, group: seq<Message>, i: nat, chains: seq<Chain>, visited: set<string>)
    requires ix.Valid() && i < |group|
    requires Emitted(ix, group, i, chains, visited) && group[i].id in visited
    ensures Emitted(ix, group, i + 1, chains, visited)
  {
    assert group[i..][1..] == group[i + 1..];
  }

  /** An unvisited member emits the chain collected from the end of its walk,
    * when that chain is not empty. */
  lemma EmittedVisit(ix: Index, group: seq<Message>, i: nat, chains: seq<Chain>, visited: set<string>,
                     chain: seq<Message>, visited': set<string>)
    requires ix.Valid() && i < |group|
    requires Emitted(ix, group, i, chains, visited) && group[i].id !in visited
    requires BreadthFirst(ix, [Climb(ix, group[i].id, |ix.byId|)], visited) == Collected(chain, visited')
    ensures Emitted(ix, group, i + 1, if chain != [] then chains + [Chain(NewMail, chain)] else chains, visited')
  {
    var g := group[i..];
    assert g[0] == group[i] && g[1..] == group[i + 1..];
    var rest := GroupLoop(ix, group[i + 1..], visited');
    if chain != [] {
      assert GroupLoop(ix, g, visited) == [Chain(NewMail, chain)] + rest;
      assert chains + ([Chain(NewMail, chain)] + rest) == chains + [Chain(NewMail, chain)] + rest;
    } else {
      assert GroupLoop(ix, g, visited) == [] + rest;
      assert [] + rest == rest;
    }
  }

  /** An index of two messages, `b` listed before `a`, in which `b` replies
    * to `a` by the scan's comparison but neither has an indexed parent. */
  ghost predicate ReplyUnwalked(ix: Index, a: Message, b: Message)
  {
    ix.Valid() && ix.keys == [b.id, a.id] &&
    b.id in ix.byId && ix.byId[b.id] == b && a.id in ix.byId && ix.byId[a.id] == a &&
    Parent(ix, a.id) == None && Parent(ix, b.id) == None &&
    ChildOf(ix, b.id, a.id) && !ChildOf(ix, a.id, a.id) && !ChildOf(ix, a.id, b.id) && !ChildOf(ix, b.id, b.id)
  }

  lemma ReplyUnwalkedReplies(ix: Index, a: Message, b: Message)
    requires ReplyUnwalked(ix, a, b)
    ensures Replies(ix, b.id) == [] && Replies(ix, a.id) == [b.id]
  {
    assert [b.id, a.id][1..] == [a.id] && [a.id][1..] == [];
    assert RepliesAmong(ix, [a.id], b.id) == [];
    assert RepliesAmong(ix, [a.id], a.id) == [];
    assert RepliesAmong(ix, [b.id, a.id], a.id) == [b.id] + [];
  }

  /** The reply, walked from itself, forms a chain of its own. */
  lemma ReplyUnwalkedFirst(ix: Index, a: Message, b: Message)
    requires ReplyUnwalked(ix, a, b)
    ensures BreadthFirst(ix, [Climb(ix, b.id, |ix.byId|)], {}) == Collected([b], {b.id})
  {
    ReplyUnwalkedReplies(ix, a, b);
    ClimbStaysAtRoot(ix, b.id, 0, |ix.byId|);
    assert [b.id][1..] + Replies(ix, b.id) == [];
    assert {} + {b.id} == {b.id};
    assert BreadthFirst(ix, [], {b.id}) == Collected([], {b.id});
    assert [ix.byId[b.id]] + [] == [b];
  }

  /** The parent, walked from itself, finds its reply visited already. */
  lemma ReplyUnwalkedSecond(ix: Index, a: Message, b: Message)
    requires ReplyUnwalked(ix, a, b)
    ensures BreadthFirst(ix, [Climb(ix, a.id, |ix.byId|)], {b.id}) == Collected([a], {b.id, a.id})
  {
    ReplyUnwalkedReplies(ix, a, b);
    ClimbStaysAtRoot(ix, a.id, 0, |ix.byId|);
    assert [a.id][1..] + Replies(ix, a.id) == [b.id];
    assert {b.id} + {a.id} == {b.id, a.id};
    assert BreadthFirst(ix, [b.id], {b.id, a.id}) == Collected([], {b.id, a.id});
  }

  /** Two members whose walks each collect just the member itself give one
    * chain each, in group order. */
  lemma TwoSingleChains(ix: Index, a: Message, b: Message)
    requires ix.Valid() && a.id != b.id
    requires BreadthFirst(ix, [Climb(ix, b.id, |ix.byId|)], {}) == Collected([b], {b.id})
    requires BreadthFirst(ix, [Climb(ix, a.id, |ix.byId|)], {b.id}) == Collected([a], {b.id, a.id})
    ensures GroupLoop(ix, [b, a], {}) == [Chain(NewMail, [b]), Chain(NewMail, [a])]
  {
    assert [b, a][1..] == [a] && [a][1..] == [];
    assert GroupLoop(ix, [a], {b.id}) == [Chain(NewMail, [a])] + [];
    assert GroupLoop(ix, [b, a], {}) == [Chain(NewMail, [b])] + GroupLoop(ix, [a], {b.id});
  }

  /** The walk compares the raw In-Reply-To (line 138) while the reply scan
    * compares stripped values (line 157). A reply `b` whose In-Reply-To names
    * `a` only once stripped is not walked up to `a`, so, fetched first, it
    * opens a chain of its own ahead of `a`'s, and the scan from `a` finds it
    * visited already. */
  lemma ReplyAheadOfParent(a: Message, b: Message)
    requires a.id != b.id
    requires a.replyTo != a.id && a.replyTo != b.id && b.replyTo != a.id && b.replyTo != b.id
    requires Strip(b.replyTo) == Strip(a.id)
    requires Strip(b.replyTo) != Strip(b.id) && Strip(a.replyTo) != Strip(b.id) && Strip(a.replyTo) != Strip(a.id)
    ensures GroupLoop(Index(map[b.id := b, a.id := a], [b.id, a.id]), [b, a], {}) ==
              [Chain(NewMail, [b]), Chain(NewMail, [a])]
  {
    var ix := Index(map[b.id := b, a.id := a], [b.id, a.id]);
    assert ix.byId[b.id] == b && ix.byId[a.id] == a;
    assert ReplyUnwalked(ix, a, b);
    ReplyUnwalkedFirst(ix, a, b);
    ReplyUnwalkedSecond(ix, a, b);
    TwoSingleChains(ix, a, b);
  }

  /** Lines 130-131 and 162-169: the chains of one subject group, with a
    * `visited` set that starts empty for the group; the root walk is the
    * bounded one. */
  method AssembleGroup(ix: Index, group: seq<Message>) returns (chains: seq<Chain>)
    requires ix.Valid()
    requires forall k :: 0 <= k < |group| ==> group[k].id in ix.byId
    // exactly the chains the loop emits, in its order
    ensures chains == GroupLoop(ix, group, {})
    ensures GroupChains(ix, group, chains)
    // a group that has messages has chains: its first member is never visited
    ensures group != [] ==> chains != []
  {
    chains := [];
    var visited: set<string> := {};
    assert group[0..] == group;
    assert Emitted(ix, group, 0, chains, visited);
    for i := 0 to |group|
      invariant ChainsOfGroup(ix, group, chains) && IdsAre(chains, visited)
      invariant Covers(group, i, visited) && Closed(ix, visited)
      invariant Emitted(ix, group, i, chains, visited)
    {
      var msgId := group[i].id;
      if msgId in visited {
        EmittedSkip(ix, group, i, chains, visited);
        CoversMore(group, i, visited, visited);
      } else {
        var root := FindRootCapped(ix, msgId);
        var chain, visited' := CollectChain(ix, root, visited);
        CollectedClosed(ix, msgId, visited, root, chain, visited');
        EmittedVisit(ix, group, i, chains, visited, chain, visited');
        CoversMore(group, i, visited, visited');
        if chain != [] {
          AppendIds(chains, visited, Chain(NewMail, chain), visited');
          AppendChain(ix, group, i, chains, root, visited, chain);
          chains := chains + [Chain(NewMail, chain)];
        }
        visited := visited';
      }
    }
    assert Emitted(ix, group, |group|, chains, visited);
    assert chains + GroupLoop(ix, group[|group|..], visited) == chains;
    GroupDone(ix, group, chains, visited);
    if group != [] {
      assert group[0].id in AllIds(chains);
    }
  }

  // ---------------------------------------------------------------------
  // All subject groups (lines 128-174)
  // ---------------------------------------------------------------------

  /** `t` is the thread emitted for `subject`, whose group is `group`. */
  ghost predicate ThreadOf(ix: Index, subject: string, group: seq<Message>, t: Thread)
    requires ix.Valid()
  {
    t.subject == subject && t.chains == GroupLoop(ix, group, {}) && GroupChains(ix, group, t.chains)
  }

  /** Lines 128-174: one thread per subject key, in the order the keys were
    * first seen, each with the chains of its group. */
  method LinkThreads(ix: Index, subjects: seq<string>, groups: map<string, seq<Message>>)
    returns (threads: seq<Thread>)
    requires ix.Valid()
    requires forall s :: s in subjects ==> s in groups
    requires forall s, m :: s in groups && m in groups[s] ==> m.id in ix.byId
    ensures |threads| == |subjects|
    ensures forall k :: 0 <= k < |subjects| ==>
              threads[k].subject == subjects[k] && threads[k].chains == GroupLoop(ix, groups[subjects[k]], {}) &&
              GroupChains(ix, groups[subjects[k]], threads[k].chains)
  {
    threads := [];
    for i := 0 to |subjects|
      invariant |threads| == i
      invariant forall k :: 0 <= k < i ==> ThreadOf(ix, subjects[k], groups[subjects[k]], threads[k])
    {
      var group := groups[subjects[i]];
      assert forall k :: 0 <= k < |group| ==> group[k] in groups[subjects[i]];
      var chains := AssembleGroup(ix, group);
      assert ThreadOf(ix, subjects[i], group, Thread(subjects[i], chains));
      threads := threads + [Thread(subjects[i], chains)];
    }
  }

  /** Every message of a subject group was fetched, so its Message-ID is a
    * key of the index. */
  lemma GroupMembersIndexed(fetched: seq<Message>)
    ensures forall s, m :: m in GroupOf(fetched, s) ==> m in fetched && m.id in BuildIndex(fetched).byId
  {
    LastWinsDomain(fetched);
    forall s, m | m in GroupOf(fetched, s)
      ensures m in fetched
    {
      GroupKeepsEveryCopy(fetched, s);
      assert multiset(fetched)[m] > 0;
    }
  }

  /** The whole script after fetching: store each message in arrival order
    * (lines 120-121), then link the threads (lines 127-174). */
  method ThreadMessages(fetched: seq<Message>) returns (threads: seq<Thread>)
    ensures BuildIndex(fetched).Valid()
    ensures |threads| == |FirstSeenSubjects(fetched)|
    ensures forall k :: 0 <= k < |threads| ==>
              threads[k].subject == FirstSeenSubjects(fetched)[k] &&
              threads[k].chains == GroupLoop(BuildIndex(fetched), GroupOf(fetched, threads[k].subject), {}) &&
              GroupChains(BuildIndex(fetched), GroupOf(fetched, threads[k].subject), threads[k].chains)
  {
    var store := new MessageStore();
    for i := 0 to |fetched|
      invariant store.Valid() && store.fetched == fetched[..i]
    {
      assert fetched[..i + 1] == fetched[..i] + [fetched[i]];
      store.Add(fetched[i]);
    }
    assert fetched[..|fetched|] == fetched;
    var ix := store.Snapshot();
    GroupMembersIndexed(fetched);
    threads := LinkThreads(ix, store.subjects, store.groups);
  }
}
