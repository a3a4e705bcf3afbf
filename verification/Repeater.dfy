/** The session tables of the repeater (UVNCRepeater/repeater.cpp): which server
    waits for which viewer, and which process relays for both.

    A slot is free when its code is 0.  Codes of mode 2 are positive and come
    from the peers, codes of mode 1 are negative and invented. */
module Repeaters {
  import opened Options

  datatype Entry = Entry(code: int, socket: int, active: bool)

  datatype Child = Child(code: int, pid: int, serverSocket: int, viewerSocket: int)

  const UNKNOWN_REPINFO_IND := 999999
  const MIN_INVENTED_CONN_CODE := -1000000

  // ---------- Tables as sequences ----------

  /** The first slot with the code, or the length. */
  function IndexOf(s: seq<Entry>, code: int): (i: nat)
    ensures i <= |s| && (i < |s| ==> s[i].code == code)
  {
    if s == [] then 0
    else if IndexOf(s[..|s| - 1], code) < |s| - 1 then IndexOf(s[..|s| - 1], code)
    else if s[|s| - 1].code == code then |s| - 1
    else |s|
  }

  lemma {:induction false} IndexIsFirst(s: seq<Entry>, code: int)
    ensures forall k :: 0 <= k < IndexOf(s, code) ==> s[k].code != code
  {
    if s != [] {
      IndexIsFirst(s[..|s| - 1], code);
    }
  }

  function Added(s: seq<Entry>, e: Entry): seq<Entry> {
    if IndexOf(s, 0) < |s| then s[IndexOf(s, 0) := e] else s
  }

  predicate HasRoom(s: seq<Entry>) {
    IndexOf(s, 0) < |s|
  }

  function Removed(s: seq<Entry>, code: int): seq<Entry> {
    var i := IndexOf(s, code);
    if i < |s| then s[i := s[i].(code := 0, active := false)] else s
  }

  function Activated(s: seq<Entry>, code: int): seq<Entry> {
    var i := IndexOf(s, code);
    if i < |s| then s[i := s[i].(active := true)] else s
  }

  function FreeProc(s: seq<Child>): (i: nat)
    ensures i <= |s| && (i < |s| ==> s[i].code == 0)
  {
    if s == [] then 0
    else if FreeProc(s[..|s| - 1]) < |s| - 1 then FreeProc(s[..|s| - 1])
    else if s[|s| - 1].code == 0 then |s| - 1
    else |s|
  }

  function ProcOf(s: seq<Child>, pid: int): (i: nat)
    ensures i <= |s| && (i < |s| ==> s[i].pid == pid)
  {
    if s == [] then 0
    else if ProcOf(s[..|s| - 1], pid) < |s| - 1 then ProcOf(s[..|s| - 1], pid)
    else if s[|s| - 1].pid == pid then |s| - 1
    else |s|
  }

  lemma {:induction false} FreeProcIsFirst(s: seq<Child>)
    ensures forall k :: 0 <= k < FreeProc(s) ==> s[k].code != 0
  {
    if s != [] {
      FreeProcIsFirst(s[..|s| - 1]);
    }
  }

  lemma {:induction false} ProcIsFirst(s: seq<Child>, pid: int)
    ensures forall k :: 0 <= k < ProcOf(s, pid) ==> s[k].pid != pid
  {
    if s != [] {
      ProcIsFirst(s[..|s| - 1], pid);
    }
  }

  function ProcAdded(s: seq<Child>, child: Child): seq<Child> {
    if FreeProc(s) < |s| then s[FreeProc(s) := child] else s
  }

  function ProcRemoved(s: seq<Child>, pid: int): seq<Child> {
    var i := ProcOf(s, pid);
    if i < |s| then s[i := s[i].(code := 0, pid := 0)] else s
  }

  // ---------- Tables as maps from codes ----------

  function Codes(s: seq<Entry>): set<int> {
    set i | 0 <= i < |s| && s[i].code != 0 :: s[i].code
  }

  lemma CodeIndex(s: seq<Entry>, c: int)
    ensures c in Codes(s) <==> c != 0 && IndexOf(s, c) < |s|
  {
    IndexIsFirst(s, c);
  }

  function Contents(s: seq<Entry>): (m: map<int, Entry>)
    ensures m.Keys == Codes(s)
  {
    map c | c in Codes(s) :: CodeIndex(s, c); s[IndexOf(s, c)]
  }

  ghost predicate Distinct(s: seq<Entry>) {
    && (forall i, j :: 0 <= i < j < |s| && s[i].code == s[j].code ==> s[i].code == 0)
    && (forall i :: 0 <= i < |s| && s[i].code == 0 ==> !s[i].active)
  }

  lemma IndexIs(s: seq<Entry>, i: nat)
    requires Distinct(s) && i < |s| && s[i].code != 0
    ensures IndexOf(s, s[i].code) == i && s[i].code in Codes(s) && Contents(s)[s[i].code] == s[i]
  {
    IndexIsFirst(s, s[i].code);
  }

  /** Only the code of the changed slot can look different. */
  lemma SameCode(s: seq<Entry>, t: seq<Entry>, i: nat, c: int)
    requires Distinct(s) && Distinct(t) && |s| == |t| && i < |s| && forall k :: 0 <= k < |s| && k != i ==> t[k] == s[k]
    ensures t[i].code == c != 0 ==> c in Contents(t) && Contents(t)[c] == t[i]
    ensures t[i].code != c && s[i].code == c != 0 ==> c !in Contents(t)
    ensures t[i].code != c && s[i].code != c ==>
              (c in Contents(t) <==> c in Contents(s)) && (c in Contents(t) ==> Contents(t)[c] == Contents(s)[c])
  {
    hide IndexOf, Contents;
    CodeIndex(s, c);
    CodeIndex(t, c);
    if t[i].code == c && c != 0 {
      IndexIs(t, i);
    }
    if c in Codes(t) {
      IndexIs(t, IndexOf(t, c));
    }
    if c in Codes(s) {
      IndexIs(s, IndexOf(s, c));
    }
  }

  lemma DistinctAfter(s: seq<Entry>, i: nat, e: Entry)
    requires Distinct(s) && i < |s| && (e.code == 0 ==> !e.active)
    requires e.code == 0 || e.code == s[i].code || e.code !in Codes(s)
    ensures Distinct(s[i := e])
  {
  }

  /** One slot gets another entry. */
  lemma SlotReplaced(s: seq<Entry>, i: nat, e: Entry)
    requires Distinct(s) && i < |s| && (e.code == 0 ==> !e.active)
    requires e.code == 0 || e.code == s[i].code || e.code !in Codes(s)
    ensures Distinct(s[i := e])
    ensures Contents(s[i := e]) ==
            if e.code == 0 then Contents(s) - {s[i].code} else (Contents(s) - {s[i].code})[e.code := e]
  {
    hide Contents, Codes, IndexOf, Distinct;
    var t := s[i := e];
    DistinctAfter(s, i, e);
    NoZeroCode(s);
    NoZeroCode(t);
    forall c
      ensures c in Contents(t) <==> if c == e.code then c != 0 else c in Contents(s) && c != s[i].code
      ensures c in Contents(t) ==> Contents(t)[c] == if c == e.code then e else Contents(s)[c]
    {
      SameCode(s, t, i, c);
    }
  }

  lemma NoZeroCode(s: seq<Entry>)
    ensures 0 !in Contents(s)
  {
  }

  lemma AddedContents(s: seq<Entry>, e: Entry)
    requires Distinct(s) && e.code != 0 && e.code !in Codes(s) && IndexOf(s, 0) < |s|
    ensures Distinct(Added(s, e)) && Contents(Added(s, e)) == Contents(s)[e.code := e]
  {
    hide Contents, Codes, IndexOf, Distinct;
    SlotReplaced(s, IndexOf(s, 0), e);
    NoZeroCode(s);
    assert Contents(s) - {0} == Contents(s);
  }

  lemma RemovedContents(s: seq<Entry>, code: int)
    requires Distinct(s) && code in Codes(s)
    ensures Distinct(Removed(s, code)) && Contents(Removed(s, code)) == Contents(s) - {code}
  {
    hide Contents, Codes, IndexOf, Distinct;
    CodeIndex(s, code);
    var i := IndexOf(s, code);
    SlotReplaced(s, i, s[i].(code := 0, active := false));
  }

  lemma ActivatedContents(s: seq<Entry>, code: int)
    requires Distinct(s) && code in Codes(s)
    ensures Distinct(Activated(s, code))
    ensures Contents(Activated(s, code)) == Contents(s)[code := Contents(s)[code].(active := true)]
  {
    hide Contents, Codes, IndexOf, Distinct;
    FirstContents(s, code);
    var i := IndexOf(s, code);
    SlotReplaced(s, i, s[i].(active := true));
    assert (Contents(s) - {code})[code := s[i].(active := true)] == Contents(s)[code := s[i].(active := true)];
  }

  lemma FirstContents(s: seq<Entry>, code: int)
    requires code in Codes(s)
    ensures IndexOf(s, code) < |s| && Contents(s)[code] == s[IndexOf(s, code)] && code != 0
  {
    CodeIndex(s, code);
  }

  // ---------- Room ----------

  /** A table holds no more codes than slots, and a full one holds as many. */
  lemma {:induction false} CodesFit(s: seq<Entry>)
    ensures |Codes(s)| <= |s|
    ensures Distinct(s) && IndexOf(s, 0) == |s| ==> |Codes(s)| == |s|
  {
    hide IndexOf;
    if s != [] {
      var t, e := s[..|s| - 1], s[|s| - 1];
      CodesFit(t);
      LastCode(s);
      if e.code == 0 {
        assert Codes(s) == Codes(t);
      } else {
        assert Codes(s) == Codes(t) + {e.code};
      }
    } else {
      assert Codes(s) == {};
    }
  }

  lemma {:induction false} LastCode(s: seq<Entry>)
    requires s != []
    ensures forall c :: c in Codes(s) <==> c in Codes(s[..|s| - 1]) || c == s[|s| - 1].code != 0
    ensures Distinct(s) ==> Distinct(s[..|s| - 1]) && s[|s| - 1].code !in Codes(s[..|s| - 1])
    ensures IndexOf(s, 0) == |s| ==> IndexOf(s[..|s| - 1], 0) == |s| - 1 && s[|s| - 1].code != 0
  {
  }

  // ---------- Processes ----------

  function AsEntries(s: seq<Child>): (r: seq<Entry>)
    ensures |r| == |s| && forall i :: 0 <= i < |s| ==> r[i] == Entry(s[i].code, 0, false)
  {
    seq(|s|, i requires 0 <= i < |s| => Entry(s[i].code, 0, false))
  }

  function Children(s: seq<Child>): (m: map<int, Child>)
    ensures m.Keys == Codes(AsEntries(s))
  {
    map c | c in Codes(AsEntries(s)) :: CodeIndex(AsEntries(s), c); s[IndexOf(AsEntries(s), c)]
  }

  ghost predicate Kept(s: seq<Child>) {
    && Distinct(AsEntries(s))
    && (forall i, j :: 0 <= i < j < |s| && s[i].pid == s[j].pid ==> s[i].pid == 0)
    && (forall i :: 0 <= i < |s| ==> (s[i].code == 0 <==> s[i].pid == 0))
  }

  lemma FreeProcIndex(s: seq<Child>)
    ensures FreeProc(s) == IndexOf(AsEntries(s), 0)
  {
    hide IndexOf, FreeProc;
    var e := AsEntries(s);
    IndexIsFirst(e, 0);
    FreeProcIsFirst(s);
    if FreeProc(s) < |s| {
      assert e[FreeProc(s)].code == 0;
    }
    if IndexOf(e, 0) < |s| {
      assert s[IndexOf(e, 0)].code == 0;
    }
  }

  lemma {:induction false} ChildIs(s: seq<Child>, i: nat)
    requires Kept(s) && i < |s| && s[i].code != 0
    ensures s[i].code in Children(s) && Children(s)[s[i].code] == s[i] && ProcOf(s, s[i].pid) == i
  {
    hide IndexOf, ProcOf;
    IndexIs(AsEntries(s), i);
    ProcIsFirst(s, s[i].pid);
  }

  /** Children agree where the slots do. */
  lemma SameChild(s: seq<Child>, t: seq<Child>, i: nat, c: int)
    requires Kept(s) && Kept(t) && |s| == |t| && i < |s| && forall k :: 0 <= k < |s| && k != i ==> t[k] == s[k]
    requires t[i].code != c
    ensures c in Children(t) <==> c in Children(s) && s[i].code != c
    ensures c in Children(t) ==> Children(t)[c] == Children(s)[c]
  {
    hide IndexOf, Children;
    SameCode(AsEntries(s), AsEntries(t), i, c);
    CodeIndex(AsEntries(t), c);
    if c in Children(t) {
      var k := IndexOf(AsEntries(t), c);
      assert t[k].code == c && k != i;
      ChildIs(t, k);
      ChildIs(s, k);
    }
  }

  lemma {:induction false} ProcAddedKept(s: seq<Child>, child: Child)
    requires Kept(s) && child.code != 0 && child.code !in Children(s) && FreeProc(s) < |s|
    requires child.pid != 0 && ProcOf(s, child.pid) == |s|
    ensures Kept(ProcAdded(s, child)) && ProcAdded(s, child) == s[FreeProc(s) := child] && s[FreeProc(s)].code == 0
  {
    hide IndexOf, ProcOf, FreeProc, Children;
    var t, i := ProcAdded(s, child), FreeProc(s);
    FreeProcIndex(s);
    AddedContents(AsEntries(s), Entry(child.code, 0, false));
    assert AsEntries(t) == Added(AsEntries(s), Entry(child.code, 0, false));
    ProcIsFirst(s, child.pid);
    assert forall k :: 0 <= k < |s| ==> t[k].pid == if k == i then child.pid else s[k].pid;
  }

  lemma ProcAddedChildren(s: seq<Child>, child: Child)
    requires Kept(s) && child.code != 0 && child.code !in Children(s) && FreeProc(s) < |s|
    requires child.pid != 0 && ProcOf(s, child.pid) == |s|
    ensures Kept(ProcAdded(s, child)) && Children(ProcAdded(s, child)) == Children(s)[child.code := child]
  {
    hide Children, Kept, IndexOf, FreeProc, ProcOf, ProcAdded, AsEntries, Codes;
    ProcAddedKept(s, child);
    var t, i := ProcAdded(s, child), FreeProc(s);
    forall c
      ensures c in Children(t) <==> c in Children(s) || c == child.code
      ensures c in Children(t) ==> Children(t)[c] == if c == child.code then child else Children(s)[c]
    {
      AddedChildAt(s, t, i, c);
    }
  }

  lemma AddedChildAt(s: seq<Child>, t: seq<Child>, i: nat, c: int)
    requires Kept(s) && Kept(t) && |s| == |t| && i < |s| && forall k :: 0 <= k < |s| && k != i ==> t[k] == s[k]
    requires s[i].code == 0 && t[i].code != 0
    ensures c in Children(t) <==> c in Children(s) || c == t[i].code
    ensures c in Children(t) ==> Children(t)[c] == if c == t[i].code then t[i] else Children(s)[c]
  {
    hide Children, Kept, IndexOf, AsEntries, Codes;
    ChildIs(t, i);
    NoZeroChild(s);
    if c != t[i].code {
      SameChild(s, t, i, c);
    }
  }

  lemma ProcRemovedKept(s: seq<Child>, pid: int)
    requires Kept(s) && pid != 0 && ProcOf(s, pid) < |s|
    ensures Kept(ProcRemoved(s, pid)) && s[ProcOf(s, pid)].code != 0
  {
    hide IndexOf, ProcOf, Children;
    var t, i := ProcRemoved(s, pid), ProcOf(s, pid);
    IndexIs(AsEntries(s), i);
    RemovedContents(AsEntries(s), s[i].code);
    assert AsEntries(t) == Removed(AsEntries(s), s[i].code);
    assert forall k :: 0 <= k < |s| ==> t[k].pid == if k == i then 0 else s[k].pid;
  }

  lemma ProcRemovedChildren(s: seq<Child>, pid: int)
    requires Kept(s) && pid != 0 && ProcOf(s, pid) < |s|
    ensures var code := s[ProcOf(s, pid)].code;
            code in Children(s) && Kept(ProcRemoved(s, pid)) && Children(ProcRemoved(s, pid)) == Children(s) - {code}
  {
    hide Children, Kept, IndexOf, ProcOf, AsEntries, Codes;
    ProcRemovedKept(s, pid);
    var t, i := ProcRemoved(s, pid), ProcOf(s, pid);
    ChildIs(s, i);
    forall c
      ensures c in Children(t) <==> c in Children(s) && c != s[i].code
      ensures c in Children(t) ==> Children(t)[c] == Children(s)[c]
    {
      RemovedChildAt(s, t, i, c);
    }
  }

  lemma RemovedChildAt(s: seq<Child>, t: seq<Child>, i: nat, c: int)
    requires Kept(s) && Kept(t) && |s| == |t| && i < |s| && forall k :: 0 <= k < |s| && k != i ==> t[k] == s[k]
    requires t[i].code == 0
    ensures c in Children(t) <==> c in Children(s) && c != s[i].code
    ensures c in Children(t) ==> Children(t)[c] == Children(s)[c]
  {
    hide Children, Kept, IndexOf, AsEntries, Codes;
    NoZeroChild(s);
    NoZeroChild(t);
    if c != 0 {
      SameChild(s, t, i, c);
    }
  }

  lemma NoZeroChild(s: seq<Child>)
    ensures 0 !in Children(s)
  {
  }

  // ---------- The steps ----------

  datatype Tables = Tables(servers: seq<Entry>, viewers: seq<Entry>, procs: seq<Child>, mode1ConnCode: int)

  function Forked(t: Tables, code: int, pid: int, serverSocket: int, viewerSocket: int): Tables {
    t.(procs := ProcAdded(t.procs, Child(code, pid, serverSocket, viewerSocket)))
  }

  /** A viewer with an id. */
  function AcceptViewer(t: Tables, code: int, socket: int, pid: int): Tables {
    if IndexOf(t.viewers, 0) == |t.viewers| then t
    else
      var viewers := Added(t.viewers, Entry(code, socket, false));
      var i := IndexOf(t.servers, code);
      if i == |t.servers| then t.(viewers := viewers)
      else Forked(t.(viewers := Activated(viewers, code), servers := Activated(t.servers, code)),
                  code, pid, t.servers[i].socket, socket)
  }

  /** A server with an id; only servers are checked for duplicates. */
  function AcceptServer(t: Tables, code: int, socket: int, pid: int): Tables {
    if IndexOf(t.servers, code) < |t.servers| || IndexOf(t.servers, 0) == |t.servers| then t
    else
      var servers := Added(t.servers, Entry(code, socket, false));
      var i := IndexOf(t.viewers, code);
      if i == |t.viewers| then t.(servers := servers)
      else Forked(t.(servers := Activated(servers, code), viewers := Activated(t.viewers, code)),
                  code, pid, socket, t.viewers[i].socket)
  }

  function Invented(code: int): int {
    if code - 1 < MIN_INVENTED_CONN_CODE then -1 else code - 1
  }

  function AddedActive(s: seq<Entry>, code: int, socket: int): seq<Entry> {
    if IndexOf(s, 0) < |s| then Activated(Added(s, Entry(code, socket, false)), code) else s
  }

  /** A viewer with an address: the repeater has connected to its server. */
  function AcceptMode1(t: Tables, viewerSocket: int, serverSocket: int, pid: int): Tables {
    var code := Invented(t.mode1ConnCode);
    var t' := t.(mode1ConnCode := code,
                 viewers := AddedActive(t.viewers, code, viewerSocket),
                 servers := AddedActive(t.servers, code, serverSocket));
    if IndexOf(t.viewers, 0) < |t.viewers| && IndexOf(t.servers, 0) < |t.servers|
    then Forked(t', code, pid, serverSocket, viewerSocket)
    else t'
  }

  /** A waiting connection that is too old or broken is removed, by its code. */
  function Reaped(s: seq<Entry>, i: nat, gone: bool): seq<Entry>
    requires i < |s|
  {
    if s[i].code != 0 && !s[i].active && gone then Removed(s, s[i].code) else s
  }

  function ProcExit(t: Tables, exitCode: int, pid: int): Tables {
    var i := ProcOf(t.procs, pid);
    if i == |t.procs| then t
    else
      var code := t.procs[i].code;
      if IndexOf(t.servers, code) == |t.servers| || IndexOf(t.viewers, code) == |t.viewers| then t
      else
        var t' := t.(procs := ProcRemoved(t.procs, pid));
        if 1 <= exitCode <= 5 then t'.(servers := Removed(t.servers, code), viewers := Removed(t.viewers, code)) else t'
  }

  // ---------- Sessions ----------

  /** Codes are unique; a server and a viewer with the same code are active and
      have a process between their sockets, and nobody else is active. */
  ghost predicate Paired(t: Tables) {
    && |t.servers| == |t.viewers| == |t.procs|
    && Distinct(t.servers) && Distinct(t.viewers) && Kept(t.procs)
    && Matched(Contents(t.servers), Contents(t.viewers), Children(t.procs))
  }

  ghost predicate Matched(servers: map<int, Entry>, viewers: map<int, Entry>, procs: map<int, Child>) {
    && (forall c :: c in procs <==> c in servers && c in viewers)
    && (forall c :: c in servers ==> (servers[c].active <==> c in procs))
    && (forall c :: c in viewers ==> (viewers[c].active <==> c in procs))
    && (forall c :: c in procs ==>
        procs[c].serverSocket == servers[c].socket && procs[c].viewerSocket == viewers[c].socket)
  }

  /** A process slot is always free for a new pair: every process has a server
      of its own, and the new pair's server has none. */
  lemma ProcSlotIsFree(t: Tables, codes: set<int>)
    requires Paired(t) && |codes| <= |t.procs| && Children(t.procs).Keys < codes
    ensures FreeProc(t.procs) < |t.procs|
  {
    hide Matched;
    FreeProcIndex(t.procs);
    CodesFit(AsEntries(t.procs));
    ProperSubset(Children(t.procs).Keys, codes);
  }

  lemma ProperSubset(a: set<int>, b: set<int>)
    requires a < b
    ensures |a| < |b|
  {
    assert b == a + (b - a) && a * (b - a) == {};
  }

  predicate FreshPid(t: Tables, pid: int) {
    pid != 0 && ProcOf(t.procs, pid) == |t.procs|
  }

  lemma ActiveIsMatched(t: Tables, t': Tables, code: int, child: Child)
    requires Paired(t) && code != 0 && child.code == code && child.pid != 0 && FreshPid(t, child.pid)
    requires code !in Children(t.procs) && FreeProc(t.procs) < |t.procs|
    requires |t'.servers| == |t.servers| && |t'.viewers| == |t.viewers|
    requires Distinct(t'.servers) && Distinct(t'.viewers) && t'.procs == ProcAdded(t.procs, child)
    requires Contents(t'.servers) == Contents(t.servers)[code := Entry(code, child.serverSocket, true)]
    requires Contents(t'.viewers) == Contents(t.viewers)[code := Entry(code, child.viewerSocket, true)]
    ensures Paired(t')
  {
    hide Contents, Children, Kept, Distinct, ProcOf, FreeProc, Matched;
    ProcAddedChildren(t.procs, child);
    MatchedPair(Contents(t.servers), Contents(t.viewers), Children(t.procs), child);
    assert |t'.procs| == |t.procs|;
  }

  lemma MatchedPair(servers: map<int, Entry>, viewers: map<int, Entry>, procs: map<int, Child>, child: Child)
    requires Matched(servers, viewers, procs) && child.code !in procs
    ensures Matched(servers[child.code := Entry(child.code, child.serverSocket, true)],
                    viewers[child.code := Entry(child.code, child.viewerSocket, true)], procs[child.code := child])
  {
  }

  /** An accepted viewer keeps the sessions exactly when no viewer with its code
      is there yet. */
  lemma AcceptViewerKeepsPairedIff(t: Tables, code: int, socket: int, pid: int)
    requires Paired(t) && code != 0 && FreshPid(t, pid)
    ensures Paired(AcceptViewer(t, code, socket, pid)) <==>
            IndexOf(t.viewers, 0) == |t.viewers| || code !in Codes(t.viewers)
  {
    hide Contents, Children, Kept, Distinct, ProcOf, FreeProc, IndexOf, Codes;
    var e := Entry(code, socket, false);
    if IndexOf(t.viewers, 0) == |t.viewers| {
    } else if code in Codes(t.viewers) {
      TwiceIsNotDistinct(t.viewers, e);
    } else {
      AddedContents(t.viewers, e);
      if code in Codes(t.servers) {
        var serverSocket := Contents(t.servers)[code].socket;
        ActivatedContents(Added(t.viewers, e), code);
        ActivatedContents(t.servers, code);
        CodesFit(t.servers);
        ProcessesHavePeers(t);
        ProcSlotIsFree(t, Codes(t.servers));
        FirstContents(t.servers, code);
        ActiveIsMatched(t, AcceptViewer(t, code, socket, pid), code, Child(code, pid, serverSocket, socket));
      } else {
        CodeIndex(t.servers, code);
      }
    }
  }

  lemma ProcessesHavePeers(t: Tables)
    requires Paired(t)
    ensures Children(t.procs).Keys == Codes(t.servers) * Codes(t.viewers)
  {
    hide Kept, Distinct, Codes;
  }

  /** The other way round; a server whose code is taken is turned away. */
  lemma AcceptServerKeepsPaired(t: Tables, code: int, socket: int, pid: int)
    requires Paired(t) && code != 0 && FreshPid(t, pid)
    ensures Paired(AcceptServer(t, code, socket, pid))
  {
    hide Contents, Children, Kept, Distinct, ProcOf, FreeProc, IndexOf, Codes;
    var e := Entry(code, socket, false);
    CodeIndex(t.servers, code);
    if IndexOf(t.servers, 0) < |t.servers| && code !in Codes(t.servers) {
      AddedContents(t.servers, e);
      if code in Codes(t.viewers) {
        var viewerSocket := Contents(t.viewers)[code].socket;
        ActivatedContents(Added(t.servers, e), code);
        ActivatedContents(t.viewers, code);
        CodesFit(t.viewers);
        ProcessesHavePeers(t);
        ProcSlotIsFree(t, Codes(t.viewers));
        FirstContents(t.viewers, code);
        ActiveIsMatched(t, AcceptServer(t, code, socket, pid), code, Child(code, pid, socket, viewerSocket));
      } else {
        CodeIndex(t.viewers, code);
      }
    }
  }

  lemma AddedActiveContents(s: seq<Entry>, code: int, socket: int)
    requires Distinct(s) && code != 0 && code !in Codes(s) && IndexOf(s, 0) < |s|
    ensures |AddedActive(s, code, socket)| == |s| && Distinct(AddedActive(s, code, socket))
    ensures Contents(AddedActive(s, code, socket)) == Contents(s)[code := Entry(code, socket, true)]
  {
    hide Contents, Distinct, IndexOf, Codes;
    AddedContents(s, Entry(code, socket, false));
    ActivatedContents(Added(s, Entry(code, socket, false)), code);
  }

  /** A session of mode 1 keeps the others exactly when there is room for both
      its ends and its invented code is unused, or room for none of them. */
  lemma AcceptMode1KeepsPairedIff(t: Tables, viewerSocket: int, serverSocket: int, pid: int)
    requires Paired(t) && FreshPid(t, pid) && t.mode1ConnCode <= 0
    ensures Paired(AcceptMode1(t, viewerSocket, serverSocket, pid)) <==>
              (!HasRoom(t.viewers) && !HasRoom(t.servers)) ||
              (HasRoom(t.viewers) && HasRoom(t.servers) &&
               Invented(t.mode1ConnCode) !in Codes(t.servers) + Codes(t.viewers))
  {
    hide Contents, Children, Kept, Distinct, ProcOf, FreeProc, IndexOf, Codes, AddedActive;
    var code := Invented(t.mode1ConnCode);
    var t' := AcceptMode1(t, viewerSocket, serverSocket, pid);
    AddedActiveContentsIff(t.viewers, code, viewerSocket);
    AddedActiveContentsIff(t.servers, code, serverSocket);
    ProcessesHavePeers(t);
    if HasRoom(t.viewers) && HasRoom(t.servers) && code !in Codes(t.servers) + Codes(t.viewers) {
      CodesFit(t'.servers);
      assert Codes(t'.servers) == Codes(t.servers) + {code};
      ProcSlotIsFree(t, Codes(t'.servers));
      ActiveIsMatched(t, t', code, Child(code, pid, serverSocket, viewerSocket));
    } else if HasRoom(t.viewers) && !HasRoom(t.servers) && code !in Codes(t.viewers) {
      assert Contents(t'.viewers)[code].active && code !in Children(t'.procs);
    } else if HasRoom(t.servers) && !HasRoom(t.viewers) && code !in Codes(t.servers) {
      assert Contents(t'.servers)[code].active && code !in Children(t'.procs);
    }
  }

  /** Without room nothing happens, and a used code is there twice. */
  lemma AddedActiveContentsIff(s: seq<Entry>, code: int, socket: int)
    requires Distinct(s) && code != 0
    ensures !HasRoom(s) ==> AddedActive(s, code, socket) == s
    ensures HasRoom(s) ==> |AddedActive(s, code, socket)| == |s| &&
                           (Distinct(AddedActive(s, code, socket)) <==> code !in Codes(s))
    ensures HasRoom(s) && code !in Codes(s) ==>
              Contents(AddedActive(s, code, socket)) == Contents(s)[code := Entry(code, socket, true)]
  {
    hide Contents, Distinct, IndexOf, Codes;
    if !HasRoom(s) {
      NothingAdded(s, code, socket);
    } else if code in Codes(s) {
      TwiceIsNotDistinct(s, Entry(code, socket, false));
    } else {
      AddedActiveContents(s, code, socket);
    }
  }

  lemma NothingAdded(s: seq<Entry>, code: int, socket: int)
    requires IndexOf(s, 0) == |s|
    ensures AddedActive(s, code, socket) == s
  {
  }

  /** Removing by code removes the right entry: codes are unique. */
  lemma ReapedContents(s: seq<Entry>, i: nat, gone: bool)
    requires Distinct(s) && i < |s|
    ensures |Reaped(s, i, gone)| == |s| && Distinct(Reaped(s, i, gone))
    ensures Contents(Reaped(s, i, gone)) ==
            if s[i].code != 0 && !s[i].active && gone then Contents(s) - {s[i].code} else Contents(s)
    ensures s[i].code != 0 ==> s[i].code in Contents(s) && Contents(s)[s[i].code] == s[i]
  {
    hide Contents, IndexOf, Codes, Distinct;
    if s[i].code != 0 {
      IndexIs(s, i);
      RemovedContents(s, s[i].code);
    }
  }

  lemma ReapServerKeepsPaired(t: Tables, i: nat, gone: bool)
    requires Paired(t) && i < |t.servers|
    ensures Paired(t.(servers := Reaped(t.servers, i, gone)))
    ensures var t', e := Next(t, IdleServer(i, gone)), t.servers[i];
            && t' == t.(servers := t'.servers)
            && Contents(t'.servers) ==
               if e.code != 0 && !e.active && gone then Contents(t.servers) - {e.code} else Contents(t.servers)
  {
    hide Contents, Children, Kept, Distinct, Reaped;
    ReapedContents(t.servers, i, gone);
  }

  lemma ReapViewerKeepsPaired(t: Tables, i: nat, gone: bool)
    requires Paired(t) && i < |t.viewers|
    ensures Paired(t.(viewers := Reaped(t.viewers, i, gone)))
    ensures var t', e := Next(t, IdleViewer(i, gone)), t.viewers[i];
            && t' == t.(viewers := t'.viewers)
            && Contents(t'.viewers) ==
               if e.code != 0 && !e.active && gone then Contents(t.viewers) - {e.code} else Contents(t.viewers)
  {
    hide Contents, Children, Kept, Distinct, Reaped;
    ReapedContents(t.viewers, i, gone);
  }

  /** The end of a process takes its whole session away, and nothing else,
      exactly when the exit code is one of the five. */
  lemma ProcExitKeepsPairedIff(t: Tables, exitCode: int, pid: int)
    requires Paired(t) && pid != 0 && ProcOf(t.procs, pid) < |t.procs|
    ensures var t', code := ProcExit(t, exitCode, pid), t.procs[ProcOf(t.procs, pid)].code;
            && (Paired(t') <==> 1 <= exitCode <= 5)
            && Children(t'.procs) == Children(t.procs) - {code}
            && (1 <= exitCode <= 5 ==> Contents(t'.servers) == Contents(t.servers) - {code} &&
                                       Contents(t'.viewers) == Contents(t.viewers) - {code})
  {
    hide Contents, Children, Kept, Distinct, ProcOf, IndexOf, Codes;
    var t', code := ProcExit(t, exitCode, pid), t.procs[ProcOf(t.procs, pid)].code;
    ProcRemovedChildren(t.procs, pid);
    ProcessesHavePeers(t);
    CodeIndex(t.servers, code);
    CodeIndex(t.viewers, code);
    RemovedContents(t.servers, code);
    RemovedContents(t.viewers, code);
    assert |t'.procs| == |t.procs|;
    if !(1 <= exitCode <= 5) {
      assert code in Contents(t'.servers) && Contents(t'.servers)[code].active && code !in Children(t'.procs);
    }
  }

  lemma TwiceIsNotDistinct(s: seq<Entry>, e: Entry)
    requires Distinct(s) && e.code in Codes(s) && IndexOf(s, 0) < |s|
    ensures !Distinct(Added(s, e)) && !Distinct(Activated(Added(s, e), e.code))
  {
    hide IndexOf;
    CodeIndex(s, e.code);
    var i, j := IndexOf(s, e.code), IndexOf(s, 0);
    var t := Added(s, e);
    IndexIsFirst(t, e.code);
    assert t[i].code == t[j].code == e.code && i != j;
    var u := Activated(t, e.code);
    assert u[i].code == u[j].code == e.code;
  }

  // ---------- Runs ----------

  datatype Step =
    | ViewerConnects(code: int, socket: int, pid: int)
    | ServerConnects(code: int, socket: int, pid: int)
    | AddressConnects(viewerSocket: int, serverSocket: int, pid: int)
    | IdleViewer(index: nat, gone: bool)
    | IdleServer(index: nat, gone: bool)
    | Exited(exitCode: int, pid: int)

  function Next(t: Tables, step: Step): Tables {
    match step
    case ViewerConnects(code, socket, pid) => AcceptViewer(t, code, socket, pid)
    case ServerConnects(code, socket, pid) => AcceptServer(t, code, socket, pid)
    case AddressConnects(viewerSocket, serverSocket, pid) => AcceptMode1(t, viewerSocket, serverSocket, pid)
    case IdleViewer(i, gone) => if i < |t.viewers| then t.(viewers := Reaped(t.viewers, i, gone)) else t
    case IdleServer(i, gone) => if i < |t.servers| then t.(servers := Reaped(t.servers, i, gone)) else t
    case Exited(exitCode, pid) => ProcExit(t, exitCode, pid)
  }

  /** What the tables rely on and do not check: a viewer's code is not taken by
      another viewer, mode 1 finds room for both ends or none, an invented code
      that finds room is not in use, a child ends with one of its five codes.  The pid of a new
      process is not that of a running one. */
  predicate Proper(t: Tables, step: Step) {
    match step
    case ViewerConnects(code, socket, pid) =>
      code > 0 && FreshPid(t, pid) && (HasRoom(t.viewers) ==> code !in Codes(t.viewers))
    case ServerConnects(code, socket, pid) => code > 0 && FreshPid(t, pid)
    case AddressConnects(viewerSocket, serverSocket, pid) =>
      && FreshPid(t, pid) && (HasRoom(t.viewers) <==> HasRoom(t.servers))
      && (HasRoom(t.viewers) ==> Invented(t.mode1ConnCode) !in Codes(t.servers) + Codes(t.viewers))
    case IdleViewer(_, _) => true
    case IdleServer(_, _) => true
    case Exited(exitCode, pid) => pid != 0 && 1 <= exitCode <= 5
  }

  lemma StepKeepsPaired(t: Tables, step: Step)
    requires Paired(t) && t.mode1ConnCode <= 0 && Proper(t, step)
    ensures Paired(Next(t, step)) && Next(t, step).mode1ConnCode <= 0
  {
    hide Paired, Codes, IndexOf, FreshPid, ProcOf;
    match step
    case ViewerConnects(code, socket, pid) => AcceptViewerKeepsPairedIff(t, code, socket, pid);
    case ServerConnects(code, socket, pid) => AcceptServerKeepsPaired(t, code, socket, pid);
    case AddressConnects(viewerSocket, serverSocket, pid) =>
      AcceptMode1KeepsPairedIff(t, viewerSocket, serverSocket, pid);
    case IdleViewer(i, gone) =>
      if i < |t.viewers| {
        ReapViewerKeepsPaired(t, i, gone);
      }
    case IdleServer(i, gone) =>
      if i < |t.servers| {
        ReapServerKeepsPaired(t, i, gone);
      }
    case Exited(exitCode, pid) =>
      if ProcOf(t.procs, pid) < |t.procs| {
        ProcExitKeepsPairedIff(t, exitCode, pid);
      }
  }

  // ---------- What a connection brings ----------

  /** For a new code the slots are used up exactly when all of them hold codes. */
  lemma RoomIff(s: seq<Entry>, code: int)
    requires Distinct(s) && code != 0 && code !in Contents(s)
    ensures HasRoom(s) <==> |Contents(s).Keys| < |s|
  {
    hide Contents, Codes, Distinct, IndexOf;
    var e := Entry(code, 0, false);
    CodesFit(s);
    if HasRoom(s) {
      AddedContents(s, e);
      CodesFit(Added(s, e));
      assert Contents(Added(s, e)).Keys == Contents(s).Keys + {code};
    }
  }

  /** A server is turned away when its code is taken or all slots are.  Otherwise
      it waits if no viewer with its code is there, and if one is, both become
      active and a process relays between them. */
  lemma ServerIsAccepted(t: Tables, code: int, socket: int, pid: int)
    requires Paired(t) && code != 0
    ensures var t', room := Next(t, ServerConnects(code, socket, pid)), |Contents(t.servers).Keys| < |t.servers|;
            if code in Contents(t.servers) || !room then t' == t
            else if code !in Contents(t.viewers) then
              && t' == t.(servers := t'.servers) && |t'.servers| == |t.servers|
              && Contents(t'.servers) == Contents(t.servers)[code := Entry(code, socket, false)]
            else
              var peer := Contents(t.viewers)[code].socket;
              && t'.mode1ConnCode == t.mode1ConnCode
              && Contents(t'.servers) == Contents(t.servers)[code := Entry(code, socket, true)]
              && Contents(t'.viewers) == Contents(t.viewers)[code := Entry(code, peer, true)]
              && (FreshPid(t, pid) ==>
                    Children(t'.procs) == Children(t.procs)[code := Child(code, pid, socket, peer)])
  {
    hide Contents, Children, Kept, Distinct, ProcOf, FreeProc, IndexOf, Codes, Matched;
    var e := Entry(code, socket, false);
    CodeIndex(t.servers, code);
    CodeIndex(t.viewers, code);
    if code !in Contents(t.servers) {
      RoomIff(t.servers, code);
      if HasRoom(t.servers) {
        AddedContents(t.servers, e);
        if code in Contents(t.viewers) {
          ActivatedContents(Added(t.servers, e), code);
          ActivatedContents(t.viewers, code);
          FirstContents(t.viewers, code);
          if FreshPid(t, pid) {
            PairIsForked(t, t.viewers, code, Child(code, pid, socket, Contents(t.viewers)[code].socket));
          }
        }
      }
    }
  }

  /** The process of a new pair, one end of which waits in the table `s`. */
  lemma PairIsForked(t: Tables, s: seq<Entry>, code: int, child: Child)
    requires Paired(t) && (s == t.servers || s == t.viewers) && code in Contents(s)
    requires code !in Contents(t.servers) || code !in Contents(t.viewers)
    requires child.code == code != 0 && FreshPid(t, child.pid)
    ensures Children(ProcAdded(t.procs, child)) == Children(t.procs)[code := child]
  {
    hide Contents, Children, Kept, Distinct, ProcOf, FreeProc, IndexOf, Codes, Matched;
    CodesFit(s);
    ProcessesHavePeers(t);
    ProcSlotIsFree(t, Codes(s));
    ProcAddedChildren(t.procs, child);
  }

  /** The other way round; a viewer with a code that no other viewer has is turned
      away only when all slots are taken. */
  lemma ViewerIsAccepted(t: Tables, code: int, socket: int, pid: int)
    requires Paired(t) && code != 0 && code !in Contents(t.viewers)
    ensures var t', room := Next(t, ViewerConnects(code, socket, pid)), |Contents(t.viewers).Keys| < |t.viewers|;
            if !room then t' == t
            else if code !in Contents(t.servers) then
              && t' == t.(viewers := t'.viewers) && |t'.viewers| == |t.viewers|
              && Contents(t'.viewers) == Contents(t.viewers)[code := Entry(code, socket, false)]
            else
              var peer := Contents(t.servers)[code].socket;
              && t'.mode1ConnCode == t.mode1ConnCode
              && Contents(t'.viewers) == Contents(t.viewers)[code := Entry(code, socket, true)]
              && Contents(t'.servers) == Contents(t.servers)[code := Entry(code, peer, true)]
              && (FreshPid(t, pid) ==>
                    Children(t'.procs) == Children(t.procs)[code := Child(code, pid, peer, socket)])
  {
    hide Contents, Children, Kept, Distinct, ProcOf, FreeProc, IndexOf, Codes, Matched;
    var e := Entry(code, socket, false);
    CodeIndex(t.servers, code);
    RoomIff(t.viewers, code);
    if HasRoom(t.viewers) {
      AddedContents(t.viewers, e);
      if code in Contents(t.servers) {
        ActivatedContents(Added(t.viewers, e), code);
        ActivatedContents(t.servers, code);
        FirstContents(t.servers, code);
        if FreshPid(t, pid) {
          PairIsForked(t, t.servers, code, Child(code, pid, Contents(t.servers)[code].socket, socket));
        }
      }
    }
  }

  /** A connection by address takes the next negative code, starting over from -1
      below a million.  Each end becomes active if it finds a slot, and there is
      a process between them if both do. */
  lemma AddressIsAccepted(t: Tables, viewerSocket: int, serverSocket: int, pid: int)
    requires Paired(t) && t.mode1ConnCode <= 0 && FreshPid(t, pid)
    ensures var t' := Next(t, AddressConnects(viewerSocket, serverSocket, pid));
            var code := if t.mode1ConnCode <= -1000000 then -1 else t.mode1ConnCode - 1;
            var viewerRoom := |Contents(t.viewers).Keys| < |t.viewers|;
            var serverRoom := |Contents(t.servers).Keys| < |t.servers|;
            && t'.mode1ConnCode == code
            && (code !in Contents(t.viewers) && code !in Contents(t.servers) ==>
                  && Contents(t'.viewers) ==
                     (if viewerRoom then Contents(t.viewers)[code := Entry(code, viewerSocket, true)]
                      else Contents(t.viewers))
                  && Contents(t'.servers) ==
                     (if serverRoom then Contents(t.servers)[code := Entry(code, serverSocket, true)]
                      else Contents(t.servers))
                  && Children(t'.procs) ==
                     (if viewerRoom && serverRoom
                      then Children(t.procs)[code := Child(code, pid, serverSocket, viewerSocket)]
                      else Children(t.procs)))
  {
    hide Contents, Children, Kept, Distinct, ProcOf, FreeProc, IndexOf, Codes, AddedActive, Matched;
    var code := Invented(t.mode1ConnCode);
    var t' := AcceptMode1(t, viewerSocket, serverSocket, pid);
    if code !in Contents(t.viewers) && code !in Contents(t.servers) {
      RoomIff(t.viewers, code);
      RoomIff(t.servers, code);
      AddedActiveContentsIff(t.viewers, code, viewerSocket);
      AddedActiveContentsIff(t.servers, code, serverSocket);
      if HasRoom(t.viewers) && HasRoom(t.servers) {
        ProcessesHavePeers(t);
        CodesFit(t'.servers);
        assert Codes(t'.servers) == Codes(t.servers) + {code};
        ProcSlotIsFree(t, Codes(t'.servers));
        ProcAddedChildren(t.procs, Child(code, pid, serverSocket, viewerSocket));
      }
    }
  }

  /** Whoever comes first, the session is the same: both ends are active, and the
      process that the second connection starts relays between them. */
  lemma EitherOrderPairs(t: Tables, code: int, serverSocket: int, viewerSocket: int, unused: int, pid: int)
    requires Paired(t) && code != 0 && FreshPid(t, pid)
    requires code !in Contents(t.servers) && |Contents(t.servers).Keys| < |t.servers|
    requires code !in Contents(t.viewers) && |Contents(t.viewers).Keys| < |t.viewers|
    ensures var a := Next(Next(t, ServerConnects(code, serverSocket, unused)), ViewerConnects(code, viewerSocket, pid));
            var b := Next(Next(t, ViewerConnects(code, viewerSocket, unused)), ServerConnects(code, serverSocket, pid));
            && Contents(a.servers) == Contents(b.servers) ==
               Contents(t.servers)[code := Entry(code, serverSocket, true)]
            && Contents(a.viewers) == Contents(b.viewers) ==
               Contents(t.viewers)[code := Entry(code, viewerSocket, true)]
            && Children(a.procs) == Children(b.procs) ==
               Children(t.procs)[code := Child(code, pid, serverSocket, viewerSocket)]
  {
    hide Contents, Children, Paired, ProcOf, Next;
    WaitingKeepsPaired(t, code, serverSocket, viewerSocket, unused);
    ServerIsAccepted(t, code, serverSocket, unused);
    ViewerIsAccepted(t, code, viewerSocket, unused);
    var server, viewer :=
      Next(t, ServerConnects(code, serverSocket, unused)), Next(t, ViewerConnects(code, viewerSocket, unused));
    ViewerIsAccepted(server, code, viewerSocket, pid);
    ServerIsAccepted(viewer, code, serverSocket, pid);
    UpdatedTwice(Contents(t.servers), code, Entry(code, serverSocket, false), Entry(code, serverSocket, true));
    UpdatedTwice(Contents(t.viewers), code, Entry(code, viewerSocket, false), Entry(code, viewerSocket, true));
  }

  lemma UpdatedTwice(m: map<int, Entry>, code: int, first: Entry, second: Entry)
    ensures m[code := first][code := second] == m[code := second]
    ensures m[code := first][code].socket == first.socket
  {
  }

  /** Nobody waits for either yet: no process is started. */
  lemma WaitingKeepsPaired(t: Tables, code: int, serverSocket: int, viewerSocket: int, pid: int)
    requires Paired(t) && code != 0 && code !in Contents(t.servers) && code !in Contents(t.viewers)
    requires |Contents(t.servers).Keys| < |t.servers| && |Contents(t.viewers).Keys| < |t.viewers|
    ensures Paired(Next(t, ServerConnects(code, serverSocket, pid)))
    ensures Paired(Next(t, ViewerConnects(code, viewerSocket, pid)))
  {
    hide Contents, Children, Kept, Codes, IndexOf;
    CodeIndex(t.servers, code);
    CodeIndex(t.viewers, code);
    RoomIff(t.servers, code);
    RoomIff(t.viewers, code);
    AddedContents(t.servers, Entry(code, serverSocket, false));
    AddedContents(t.viewers, Entry(code, viewerSocket, false));
  }

  function Run(t: Tables, steps: seq<Step>): Tables {
    if steps == [] then t else Next(Run(t, steps[..|steps| - 1]), steps[|steps| - 1])
  }

  predicate ProperRun(t: Tables, steps: seq<Step>) {
    forall i :: 0 <= i < |steps| ==> Proper(Run(t, steps[..i]), steps[i])
  }

  /** Over every proper run the sessions stay paired. */
  lemma {:induction false} RunKeepsPaired(t: Tables, steps: seq<Step>)
    requires Paired(t) && t.mode1ConnCode <= 0 && ProperRun(t, steps)
    ensures Paired(Run(t, steps)) && Run(t, steps).mode1ConnCode <= 0
  {
    hide Paired, Proper, Next;
    if steps != [] {
      var n := |steps| - 1;
      assert forall i :: 0 <= i < n ==> steps[..n][..i] == steps[..i];
      RunKeepsPaired(t, steps[..n]);
      StepKeepsPaired(Run(t, steps[..n]), steps[n]);
    }
  }

  const FREE := Entry(0, 0, false)
  const NO_CHILD := Child(0, 0, 0, 0)

  /** The tables when the program starts. */
  predicate Cleaned(t: Tables) {
    && |t.servers| == |t.viewers| == |t.procs| && t.mode1ConnCode == 0
    && forall i :: 0 <= i < |t.servers| ==> t.servers[i] == FREE && t.viewers[i] == FREE && t.procs[i] == NO_CHILD
  }

  lemma CleanedIsPaired(t: Tables)
    requires Cleaned(t)
    ensures Paired(t)
  {
    assert Contents(t.servers) == map[] && Contents(t.viewers) == map[] && Children(t.procs) == map[];
  }

  /** What paired tables say slot by slot: an active server has one viewer slot
      and one process slot with its code, the viewer is active, and the process
      relays between their sockets. */
  lemma ActiveServerHasItsPair(t: Tables, i: nat) returns (j: nat, k: nat)
    requires Paired(t) && i < |t.servers| && t.servers[i].active
    ensures j < |t.viewers| && t.viewers[j].code == t.servers[i].code && t.viewers[j].active
    ensures k < |t.procs| && t.procs[k].code == t.servers[i].code && t.procs[k].pid != 0
    ensures t.procs[k].serverSocket == t.servers[i].socket && t.procs[k].viewerSocket == t.viewers[j].socket
    ensures forall l :: 0 <= l < |t.viewers| && t.viewers[l].code == t.servers[i].code ==> l == j
    ensures forall l :: 0 <= l < |t.procs| && t.procs[l].code == t.servers[i].code ==> l == k
    ensures forall l :: 0 <= l < |t.servers| && t.servers[l].code == t.servers[i].code ==> l == i
  {
    hide IndexOf;
    var code := t.servers[i].code;
    IndexIs(t.servers, i);
    ProcessesHavePeers(t);
    FirstContents(t.viewers, code);
    j := IndexOf(t.viewers, code);
    CodeIndex(AsEntries(t.procs), code);
    k := IndexOf(AsEntries(t.procs), code);
    ChildIs(t.procs, k);
  }

  // ---------- Runs that are not proper ----------

  /** Two viewers wait with the same code.  Their server is paired with the
      first; when the second is found idle, the first one is removed, and the
      active server is left without an active viewer. */
  lemma DuplicateViewerBreaksSession(t: Tables, a: int, b: int, c: int, pid: int)
    requires t == Tables([FREE, FREE], [FREE, FREE], [NO_CHILD, NO_CHILD], 0) && pid != 0
    ensures var t' := Next(Next(Next(Next(t, ViewerConnects(5, a, 0)), ViewerConnects(5, b, 0)),
                                ServerConnects(5, c, pid)),
                           IdleViewer(1, true));
            && t'.servers == [Entry(5, c, true), FREE] && t'.viewers == [Entry(0, a, false), Entry(5, b, false)]
            && t'.procs == [Child(5, pid, c, a), NO_CHILD]
  {
    hide IndexOf, FreeProc;
    var va, vb := Entry(5, a, false), Entry(5, b, false);
    FindInTwo([FREE, FREE], 5);
    FindInTwo([FREE, FREE], 0);
    var t1 := Next(t, ViewerConnects(5, a, 0));
    assert t1.viewers == [va, FREE];
    FindInTwo([va, FREE], 0);
    var t2 := Next(t1, ViewerConnects(5, b, 0));
    assert t2.viewers == [va, vb];
    FindInTwo([va, vb], 5);
    FindInTwo([Entry(5, c, false), FREE], 5);
    FreeProcIndex(t.procs);
    FindInTwo(AsEntries(t.procs), 0);
    var t3 := Next(t2, ServerConnects(5, c, pid));
    assert Added(t2.servers, Entry(5, c, false)) == [Entry(5, c, false), FREE];
    assert t3.servers == [Entry(5, c, true), FREE] && t3.viewers == [Entry(5, a, true), vb];
    assert t3.procs == [Child(5, pid, c, a), NO_CHILD];
    FindInTwo([Entry(5, a, true), vb], 5);
  }

  lemma FindInTwo(s: seq<Entry>, code: int)
    requires |s| == 2
    ensures IndexOf(s, code) == if s[0].code == code then 0 else if s[1].code == code then 1 else 2
  {
    IndexIsFirst(s, code);
    if IndexOf(s, code) == 2 {
      assert s[0].code != code && s[1].code != code;
    }
  }

  /** Mode 1 with a full server table leaves an active viewer behind that no
      server and no process belongs to. */
  lemma HalfAddedEntryStays(t: Tables, viewerSocket: int, serverSocket: int, pid: int)
    requires Paired(t) && t.mode1ConnCode <= 0 && HasRoom(t.viewers) && !HasRoom(t.servers)
    requires Invented(t.mode1ConnCode) !in Codes(t.viewers) + Codes(t.servers)
    ensures var t', code := AcceptMode1(t, viewerSocket, serverSocket, pid), Invented(t.mode1ConnCode);
            && t'.servers == t.servers && t'.procs == t.procs && code !in Contents(t'.servers) &&
               code !in Children(t'.procs)
            && Contents(t'.viewers) == Contents(t.viewers)[code := Entry(code, viewerSocket, true)]
  {
    hide IndexOf, Codes, Distinct, Kept, Matched;
    AddedActiveContents(t.viewers, Invented(t.mode1ConnCode), viewerSocket);
    NothingAdded(t.servers, Invented(t.mode1ConnCode), serverSocket);
    ProcessesHavePeers(t);
  }

  // ---------- The program ----------

  lemma FoundFirst(s: seq<Entry>, code: int, i: nat)
    requires i <= |s| && (i < |s| ==> s[i].code == code) && forall k :: 0 <= k < i ==> s[k].code != code
    ensures IndexOf(s, code) == i
  {
    IndexIsFirst(s, code);
  }

  lemma FoundProc(s: seq<Child>, pid: int, i: nat)
    requires i <= |s| && (i < |s| ==> s[i].pid == pid) && forall k :: 0 <= k < i ==> s[k].pid != pid
    ensures ProcOf(s, pid) == i
  {
    ProcIsFirst(s, pid);
  }

  lemma FoundFreeProc(s: seq<Child>, i: nat)
    requires i <= |s| && (i < |s| ==> s[i].code == 0) && forall k :: 0 <= k < i ==> s[k].code != 0
    ensures FreeProc(s) == i
  {
    FreeProcIsFirst(s);
  }

  /** `addServerList`, `addViewerList` */
  method AddList(list: array<Entry>, socket: int, code: int) returns (index: int)
    modifies list
    ensures list[..] == Added(old(list[..]), Entry(code, socket, false))
    ensures index == if IndexOf(old(list[..]), 0) < list.Length then IndexOf(old(list[..]), 0) else -1
  {
    hide IndexOf;
    for i := 0 to list.Length
      invariant forall k :: 0 <= k < i ==> list[k].code != 0
      invariant list[..] == old(list[..])
    {
      if list[i].code == 0 {
        FoundFirst(list[..], 0, i);
        list[i] := Entry(code, socket, false);
        return i;
      }
    }
    FoundFirst(list[..], 0, list.Length);
    index := -1;
  }

  /** `removeServerList`, `removeViewerList` */
  method RemoveList(list: array<Entry>, code: int)
    modifies list
    ensures list[..] == Removed(old(list[..]), code)
  {
    hide IndexOf;
    for i := 0 to list.Length
      invariant forall k :: 0 <= k < i ==> list[k].code != code
      invariant list[..] == old(list[..])
    {
      if list[i].code == code {
        FoundFirst(list[..], code, i);
        list[i] := list[i].(code := 0, active := false);
        return;
      }
    }
    FoundFirst(list[..], code, list.Length);
  }

  /** `setServerActive`, `setViewerActive` */
  method SetActive(list: array<Entry>, code: int)
    modifies list
    ensures list[..] == Activated(old(list[..]), code)
  {
    hide IndexOf;
    for i := 0 to list.Length
      invariant forall k :: 0 <= k < i ==> list[k].code != code
      invariant list[..] == old(list[..])
    {
      if list[i].code == code {
        FoundFirst(list[..], code, i);
        list[i] := list[i].(active := true);
        return;
      }
    }
    FoundFirst(list[..], code, list.Length);
  }

  /** `findServerList`, `findViewerList` */
  method FindList(list: array<Entry>, code: int) returns (index: nat)
    requires list.Length <= UNKNOWN_REPINFO_IND
    ensures index == if IndexOf(list[..], code) < list.Length then IndexOf(list[..], code) else UNKNOWN_REPINFO_IND
  {
    hide IndexOf;
    for i := 0 to list.Length
      invariant forall k :: 0 <= k < i ==> list[k].code != code
    {
      if list[i].code == code {
        FoundFirst(list[..], code, i);
        return i;
      }
    }
    FoundFirst(list[..], code, list.Length);
    index := UNKNOWN_REPINFO_IND;
  }

  method AddRepeaterProcList(list: array<Child>, child: Child)
    modifies list
    ensures list[..] == ProcAdded(old(list[..]), child)
  {
    hide FreeProc;
    for i := 0 to list.Length
      invariant forall k :: 0 <= k < i ==> list[k].code != 0
      invariant list[..] == old(list[..])
    {
      if list[i].code == 0 {
        FoundFreeProc(list[..], i);
        list[i] := child;
        return;
      }
    }
    FoundFreeProc(list[..], list.Length);
  }

  method RemoveRepeaterProcList(list: array<Child>, pid: int)
    modifies list
    ensures list[..] == ProcRemoved(old(list[..]), pid)
  {
    hide ProcOf;
    for i := 0 to list.Length
      invariant forall k :: 0 <= k < i ==> list[k].pid != pid
      invariant list[..] == old(list[..])
    {
      if list[i].pid == pid {
        FoundProc(list[..], pid, i);
        list[i] := list[i].(code := 0, pid := 0);
        return;
      }
    }
    FoundProc(list[..], pid, list.Length);
  }

  method FindRepeaterProcList(list: array<Child>, pid: int) returns (index: nat)
    requires list.Length <= UNKNOWN_REPINFO_IND
    ensures index == if ProcOf(list[..], pid) < list.Length then ProcOf(list[..], pid) else UNKNOWN_REPINFO_IND
  {
    hide ProcOf;
    for i := 0 to list.Length
      invariant forall k :: 0 <= k < i ==> list[k].pid != pid
    {
      if list[i].pid == pid {
        FoundProc(list[..], pid, i);
        return i;
      }
    }
    FoundProc(list[..], pid, list.Length);
    index := UNKNOWN_REPINFO_IND;
  }

  class Repeater {
    const servers: array<Entry>
    const viewers: array<Entry>
    const repeaterProcs: array<Child>
    var mode1ConnCode: int

    ghost predicate Valid()
      reads this
    {
      && servers != viewers && servers.Length == viewers.Length == repeaterProcs.Length <= UNKNOWN_REPINFO_IND
      && mode1ConnCode <= 0
    }

    ghost function State(): Tables
      reads this, servers, viewers, repeaterProcs
    {
      Tables(servers[..], viewers[..], repeaterProcs[..], mode1ConnCode)
    }

    constructor (maxSessions: nat)
      requires maxSessions <= UNKNOWN_REPINFO_IND
      ensures Valid() && Paired(State()) && fresh(servers) && fresh(viewers) && fresh(repeaterProcs)
    {
      servers := new Entry[maxSessions](_ => FREE);
      viewers := new Entry[maxSessions](_ => FREE);
      repeaterProcs := new Child[maxSessions](_ => NO_CHILD);
      mode1ConnCode := 0;
      new;
      CleanedIsPaired(State());
    }

    method ForkRepeater(serverSocket: int, viewerSocket: int, code: int, pid: int)
      modifies repeaterProcs
      ensures State() == Forked(old(State()), code, pid, serverSocket, viewerSocket)
    {
      AddRepeaterProcList(repeaterProcs, Child(code, pid, serverSocket, viewerSocket));
    }

    /** `acceptConnection` for a viewer with an id; `pid` is what fork gives. */
    method AcceptViewerId(connection: int, code: int, pid: int)
      requires Valid()
      modifies viewers, servers, repeaterProcs
      ensures Valid() && State() == Next(old(State()), ViewerConnects(code, connection, pid))
    {
      hide Added, Activated, IndexOf, ProcAdded;
      var viewerInd := AddList(viewers, connection, code);
      if viewerInd == -1 {
        NoRoom(old(viewers[..]), Entry(code, connection, false));
        return;
      }
      var serverInd := FindList(servers, code);
      if serverInd != UNKNOWN_REPINFO_IND {
        SetActive(viewers, code);
        SetActive(servers, code);
        ActivatedSocket(old(servers[..]), code, serverInd);
        var server := servers[serverInd].socket;
        ForkRepeater(server, connection, code, pid);
      }
    }

    /** `acceptConnection` for a server with an id. */
    method AcceptServerId(connection: int, code: int, pid: int)
      requires Valid()
      modifies viewers, servers, repeaterProcs
      ensures Valid() && State() == Next(old(State()), ServerConnects(code, connection, pid))
    {
      hide Added, Activated, IndexOf, ProcAdded;
      var duplicate := FindList(servers, code);
      if duplicate != UNKNOWN_REPINFO_IND {
        return;
      }
      var serverInd := AddList(servers, connection, code);
      if serverInd == -1 {
        NoRoom(old(servers[..]), Entry(code, connection, false));
        return;
      }
      var viewerInd := FindList(viewers, code);
      if viewerInd != UNKNOWN_REPINFO_IND {
        SetActive(servers, code);
        SetActive(viewers, code);
        ActivatedSocket(old(viewers[..]), code, viewerInd);
        var viewer := viewers[viewerInd].socket;
        ForkRepeater(connection, viewer, code, pid);
      }
    }

    /** `acceptConnection` in mode 1, once the server has been reached. */
    method AcceptAddress(connection: int, server: int, pid: int)
      requires Valid()
      modifies this`mode1ConnCode, viewers, servers, repeaterProcs
      ensures Valid() && State() == Next(old(State()), AddressConnects(connection, server, pid))
    {
      hide Added, Activated, IndexOf, ProcAdded;
      mode1ConnCode := mode1ConnCode - 1;
      if mode1ConnCode < MIN_INVENTED_CONN_CODE {
        mode1ConnCode := -1;
      }
      var fViewerOk, fServerOk := true, true;
      var viewerInd := AddList(viewers, connection, mode1ConnCode);
      if viewerInd != -1 {
        SetActive(viewers, mode1ConnCode);
      } else {
        NoRoom(old(viewers[..]), Entry(mode1ConnCode, connection, false));
        fViewerOk := false;
      }
      var serverInd := AddList(servers, server, mode1ConnCode);
      if serverInd != -1 {
        SetActive(servers, mode1ConnCode);
      } else {
        NoRoom(old(servers[..]), Entry(mode1ConnCode, server, false));
        fServerOk := false;
      }
      if fServerOk && fViewerOk {
        ForkRepeater(server, connection, mode1ConnCode, pid);
      }
    }

    /** `connectionRemover`; `gone` says that the connection is too old or broken. */
    method ConnectionRemover(list: array<Entry>, i: nat, gone: bool)
      requires i < list.Length
      modifies list
      ensures list[..] == Reaped(old(list[..]), i, gone)
    {
      if list[i].code != 0 && !list[i].active && gone {
        RemoveList(list, list[i].code);
      }
    }

    /** `goneViewers` and `goneServers` are the slots whose connection is too old
        or broken. */
    method RemoveOldOrBrokenConnections(goneViewers: set<nat>, goneServers: set<nat>)
      requires Valid() && Paired(State())
      modifies viewers, servers
      ensures Valid() && Paired(State()) && repeaterProcs[..] == old(repeaterProcs[..])
      ensures forall i :: 0 <= i < viewers.Length ==> viewers[i] == AfterReap(old(viewers[i]), i in goneViewers)
      ensures forall i :: 0 <= i < servers.Length ==> servers[i] == AfterReap(old(servers[i]), i in goneServers)
      ensures forall i :: 0 <= i < viewers.Length ==>
                          (viewers[i].code == 0 <==> old(viewers[i]).code == 0 ||
                                                     (!old(viewers[i]).active && i in goneViewers)) &&
                          (viewers[i].code != 0 ==> viewers[i] == old(viewers[i]))
      ensures forall i :: 0 <= i < servers.Length ==>
                          (servers[i].code == 0 <==> old(servers[i]).code == 0 ||
                                                     (!old(servers[i]).active && i in goneServers)) &&
                          (servers[i].code != 0 ==> servers[i] == old(servers[i]))
    {
      hide Paired, Reaped, AfterReap;
      for i := 0 to viewers.Length
        invariant Paired(State()) && repeaterProcs[..] == old(repeaterProcs[..])
        invariant forall k :: 0 <= k < i ==> viewers[k] == AfterReap(old(viewers[k]), k in goneViewers)
        invariant forall k :: 0 <= k < i ==> servers[k] == AfterReap(old(servers[k]), k in goneServers)
        invariant forall k :: i <= k < viewers.Length ==> viewers[k] == old(viewers[k]) && servers[k] == old(servers[k])
      {
        ReapViewerKeepsPaired(State(), i, i in goneViewers);
        ReapedSlot(State(), viewers[..], i, i in goneViewers);
        ConnectionRemover(viewers, i, i in goneViewers);
        ReapServerKeepsPaired(State(), i, i in goneServers);
        ReapedSlot(State(), servers[..], i, i in goneServers);
        ConnectionRemover(servers, i, i in goneServers);
      }
      forall i | 0 <= i < viewers.Length
        ensures viewers[i].code != 0 ==> viewers[i] == old(viewers[i])
        ensures servers[i].code != 0 ==> servers[i] == old(servers[i])
        ensures viewers[i].code == 0 <==>
                old(viewers[i]).code == 0 || (!old(viewers[i]).active && i in goneViewers)
        ensures servers[i].code == 0 <==>
                old(servers[i]).code == 0 || (!old(servers[i]).active && i in goneServers)
      {
        AfterReapIs(old(viewers[i]), i in goneViewers);
        AfterReapIs(old(servers[i]), i in goneServers);
      }
    }

    method CleanUpAfterRepeaterProcExit(exitCode: int, pid: int)
      requires Valid()
      modifies viewers, servers, repeaterProcs
      ensures Valid() && State() == Next(old(State()), Exited(exitCode, pid))
    {
      hide Removed, IndexOf, ProcRemoved, ProcOf;
      var index := FindRepeaterProcList(repeaterProcs, pid);
      if index != UNKNOWN_REPINFO_IND {
        var code := repeaterProcs[index].code;
        var serverInd := FindList(servers, code);
        var viewerInd := FindList(viewers, code);
        if serverInd != UNKNOWN_REPINFO_IND && viewerInd != UNKNOWN_REPINFO_IND {
          RemoveRepeaterProcList(repeaterProcs, pid);
          if exitCode == 1 || exitCode == 2 || exitCode == 3 || exitCode == 4 || exitCode == 5 {
            RemoveList(servers, code);
            RemoveList(viewers, code);
          }
        }
      }
    }

    /** `exits[i]` is the exit code of the child in slot i, if it has ended. */
    method CleanUpAfterRepeaterProcs(exits: seq<Option<int>>)
      requires Valid() && Paired(State()) && |exits| == repeaterProcs.Length
      modifies viewers, servers, repeaterProcs
      ensures Valid()
      ensures Paired(State()) <==> AllKnown(old(repeaterProcs[..]), exits)
      ensures forall i :: 0 <= i < |exits| && exits[i].Some? ==> repeaterProcs[i].code == 0
      ensures forall i :: 0 <= i < |exits| && exits[i].None? ==> repeaterProcs[i] == old(repeaterProcs[i])
    {
      hide Paired, Served, ProcExit, Orphan;
      ghost var orphan := 0;
      PairedIsServed(State());
      for i := 0 to repeaterProcs.Length
        invariant Served(State())
        invariant forall k :: 0 <= k < i && exits[k].Some? ==> repeaterProcs[k].code == 0
        invariant forall k :: i <= k < |exits| || (0 <= k < |exits| && exits[k].None?) ==>
                    repeaterProcs[k] == old(repeaterProcs[k])
        invariant if AllKnown(old(repeaterProcs[..])[..i], exits[..i]) then Paired(State()) else Orphan(State(), orphan)
      {
        assert AllKnown(old(repeaterProcs[..])[..i + 1], exits[..i + 1]) <==>
               AllKnown(old(repeaterProcs[..])[..i], exits[..i]) &&
               (exits[i].Some? && repeaterProcs[i].code != 0 ==> 1 <= exits[i].value <= 5);
        if repeaterProcs[i].code != 0 && exits[i].Some? {
          SlotCleared(State(), exits[i].value, i);
          if AllKnown(old(repeaterProcs[..])[..i], exits[..i]) {
            orphan := repeaterProcs[i].code;
            if 1 <= exits[i].value <= 5 {
              KnownExitKeepsPaired(State(), exits[i].value, i);
            }
          } else {
            OrphanStays(State(), exits[i].value, i, orphan);
          }
          CleanUpAfterRepeaterProcExit(exits[i].value, repeaterProcs[i].pid);
        }
      }
      assert old(repeaterProcs[..])[..repeaterProcs.Length] == old(repeaterProcs[..]) && exits[..|exits|] == exits;
      if !AllKnown(old(repeaterProcs[..]), exits) {
        OrphanIsNotPaired(State(), orphan);
      }
    }
  }

  /** Every child that has ended did so with one of the five codes. */
  predicate AllKnown(procs: seq<Child>, exits: seq<Option<int>>)
    requires |procs| == |exits|
  {
    forall i :: 0 <= i < |procs| && procs[i].code != 0 && exits[i].Some? ==> 1 <= exits[i].value <= 5
  }

  /** A waiting connection that is gone is freed, everything else stays. */
  function AfterReap(e: Entry, gone: bool): Entry {
    if e.code != 0 && !e.active && gone then e.(code := 0, active := false) else e
  }

  lemma AfterReapIs(e: Entry, gone: bool)
    ensures AfterReap(e, gone).code == 0 <==> e.code == 0 || (!e.active && gone)
    ensures AfterReap(e, gone).code != 0 ==> AfterReap(e, gone) == e
  {
  }

  lemma ReapedSlot(t: Tables, s: seq<Entry>, i: nat, gone: bool)
    requires Paired(t) && (s == t.servers || s == t.viewers) && i < |s|
    ensures Reaped(s, i, gone) == s[i := AfterReap(s[i], gone)]
  {
    hide IndexOf;
    if s[i].code != 0 {
      IndexIs(s, i);
    }
  }

  /** What is left of `Paired` when children end with other codes: every process
      still has its server and its viewer. */
  ghost predicate Served(t: Tables) {
    && |t.servers| == |t.viewers| == |t.procs|
    && Distinct(t.servers) && Distinct(t.viewers) && Kept(t.procs)
    && forall c :: c in Children(t.procs) ==> c in Contents(t.servers) && c in Contents(t.viewers)
  }

  /** A server and a viewer with the same code but no process. */
  ghost predicate Orphan(t: Tables, code: int) {
    code in Contents(t.servers) && code in Contents(t.viewers) && code !in Children(t.procs)
  }

  lemma PairedIsServed(t: Tables)
    requires Paired(t)
    ensures Served(t)
  {
    hide Distinct, Kept, Contents, Children;
  }

  lemma OrphanIsNotPaired(t: Tables, code: int)
    requires Orphan(t, code)
    ensures !Paired(t)
  {
    hide Distinct, Kept, Contents, Children;
  }

  /** The end of a process takes it away, and its session for the five codes only. */
  lemma ServedExit(t: Tables, exitCode: int, i: nat)
    requires Served(t) && i < |t.procs| && t.procs[i].code != 0
    ensures var t', code := ProcExit(t, exitCode, t.procs[i].pid), t.procs[i].code;
            && code in Children(t.procs)
            && t'.procs == t.procs[i := t.procs[i].(code := 0, pid := 0)]
            && |t'.servers| == |t.servers| && |t'.viewers| == |t.viewers|
            && Distinct(t'.servers) && Distinct(t'.viewers) && Kept(t'.procs)
            && Children(t'.procs) == Children(t.procs) - {code}
            && Contents(t'.servers) == (if 1 <= exitCode <= 5 then Contents(t.servers) - {code}
                                        else Contents(t.servers))
            && Contents(t'.viewers) == (if 1 <= exitCode <= 5 then Contents(t.viewers) - {code}
                                        else Contents(t.viewers))
  {
    hide IndexOf, ProcOf, Contents, Children, Kept, Distinct, Codes;
    var code, pid := t.procs[i].code, t.procs[i].pid;
    ChildIs(t.procs, i);
    KeptPid(t.procs, i);
    ProcRemovedChildren(t.procs, pid);
    CodeIndex(t.servers, code);
    CodeIndex(t.viewers, code);
    RemovedContents(t.servers, code);
    RemovedContents(t.viewers, code);
  }

  lemma KeptPid(s: seq<Child>, i: nat)
    requires Kept(s) && i < |s| && s[i].code != 0
    ensures s[i].pid != 0
  {
  }

  lemma SlotCleared(t: Tables, exitCode: int, i: nat)
    requires Served(t) && i < |t.procs| && t.procs[i].code != 0
    ensures var t' := ProcExit(t, exitCode, t.procs[i].pid);
            && t'.procs == t.procs[i := t.procs[i].(code := 0, pid := 0)] && Served(t')
            && (!(1 <= exitCode <= 5) ==> Orphan(t', t.procs[i].code))
  {
    hide Distinct, Kept, Contents, Children, ProcExit;
    ServedExit(t, exitCode, i);
  }

  lemma KnownExitKeepsPaired(t: Tables, exitCode: int, i: nat)
    requires Paired(t) && i < |t.procs| && t.procs[i].code != 0 && 1 <= exitCode <= 5
    ensures Paired(ProcExit(t, exitCode, t.procs[i].pid))
  {
    hide Distinct, Matched, ProcExit, IndexOf, ProcOf;
    ChildIs(t.procs, i);
    KeptPid(t.procs, i);
    ProcExitKeepsPairedIff(t, exitCode, t.procs[i].pid);
  }

  lemma OrphanStays(t: Tables, exitCode: int, i: nat, orphan: int)
    requires Served(t) && i < |t.procs| && t.procs[i].code != 0 && Orphan(t, orphan)
    ensures Orphan(ProcExit(t, exitCode, t.procs[i].pid), orphan)
  {
    hide Distinct, Kept, Contents, Children, ProcExit;
    ServedExit(t, exitCode, i);
  }

  lemma NoRoom(s: seq<Entry>, e: Entry)
    requires IndexOf(s, 0) == |s|
    ensures Added(s, e) == s
  {
  }

  /** Activating changes no socket. */
  lemma ActivatedSocket(s: seq<Entry>, code: int, i: nat)
    requires i < |s|
    ensures |Activated(s, code)| == |s| && Activated(s, code)[i].socket == s[i].socket
  {
  }
}
