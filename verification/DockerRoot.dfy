/** Checking a project tree before it is mounted into a container
    (packages/hunt/src/docker-adapter.ts): a work list over directories, in which links are
    resolved but not followed. */
module DockerRoot {
  import opened Options
  import opened Paths

  const MAX_ENTRIES: int := 100_000
  const MAX_PATH: int := 4096

  /** A real path is absolute and resolved. */
  type RealPath = path: Segs | AllPlain(path) witness []

  /** An entry as `lstat` sees it; a link carries its real path, or none when it is broken. */
  datatype Node = Directory(children: seq<Node>) | File | Link(destination: Option<RealPath>) | Irregular

  datatype Outcome = Accepted | UnboundedPath | NotDirectory | TooMany | Broken | Escape | NonRegular

  // ---------------------------------------------------------------------
  // What the check is for
  // ---------------------------------------------------------------------

  /** What may be below the root: directories, regular files, and links that end at or below
      the real root. */
  predicate Admissible(root: Segs, node: Node) {
    match node
    case Directory(_) => true
    case File => true
    case Link(destination) => destination.Some? && root <= destination.value
    case Irregular => false
  }

  /** The entry at an address: the way from the top by child numbers, through directories only. */
  function EntryAt(node: Node, address: seq<nat>): Option<Node> {
    if address == [] then Some(node)
    else if node.Directory? && address[0] < |node.children| then EntryAt(node.children[address[0]], address[1..])
    else None
  }

  /** Every entry reachable without following a link is admissible. */
  ghost predicate AllReachableAdmissible(root: Segs, node: Node) {
    forall address: seq<nat> :: address != [] && EntryAt(node, address).Some? ==> Admissible(root, EntryAt(node, address).value)
  }

  /** How many entries lie below a node. */
  function Count(node: Node): nat {
    if node.Directory? then CountAll(node.children) else 0
  }

  function CountAll(nodes: seq<Node>): nat {
    if nodes == [] then 0 else 1 + Count(nodes[0]) + CountAll(nodes[1..])
  }

  // ---------------------------------------------------------------------
  // The same, by the shape of the tree
  // ---------------------------------------------------------------------

  predicate Good(root: Segs, node: Node) {
    node.Directory? ==> GoodAll(root, node.children)
  }

  predicate GoodAll(root: Segs, nodes: seq<Node>) {
    nodes != [] ==> Admissible(root, nodes[0]) && Good(root, nodes[0]) && GoodAll(root, nodes[1..])
  }

  lemma {:induction false} GoodAllAt(root: Segs, nodes: seq<Node>, i: nat)
    requires i < |nodes| && GoodAll(root, nodes)
    ensures Admissible(root, nodes[i]) && Good(root, nodes[i])
  {
    if i > 0 { GoodAllAt(root, nodes[1..], i - 1); }
  }

  lemma {:induction false} GoodReaches(root: Segs, node: Node, address: seq<nat>)
    requires Good(root, node) && address != [] && EntryAt(node, address).Some?
    ensures Admissible(root, EntryAt(node, address).value)
    decreases |address|
  {
    GoodAllAt(root, node.children, address[0]);
    if |address| > 1 { GoodReaches(root, node.children[address[0]], address[1..]); }
  }

  lemma {:induction false} BadIsReached(root: Segs, node: Node) returns (address: seq<nat>)
    requires !Good(root, node)
    ensures address != [] && EntryAt(node, address).Some? && !Admissible(root, EntryAt(node, address).value)
    decreases node
  {
    var i, below := BadAmong(root, node.children);
    address := [i] + below;
  }

  lemma {:induction false} BadAmong(root: Segs, nodes: seq<Node>) returns (i: nat, below: seq<nat>)
    requires !GoodAll(root, nodes)
    ensures i < |nodes| && EntryAt(nodes[i], below).Some? && !Admissible(root, EntryAt(nodes[i], below).value)
    decreases nodes
  {
    if !Admissible(root, nodes[0]) {
      return 0, [];
    }
    if !Good(root, nodes[0]) {
      below := BadIsReached(root, nodes[0]);
      return 0, below;
    }
    i, below := BadAmong(root, nodes[1..]);
    i := i + 1;
  }

  /** The two readings agree. */
  lemma GoodIsReachable(root: Segs, node: Node)
    ensures Good(root, node) <==> AllReachableAdmissible(root, node)
  {
    if Good(root, node) {
      forall address: seq<nat> | address != [] && EntryAt(node, address).Some?
        ensures Admissible(root, EntryAt(node, address).value)
      {
        GoodReaches(root, node, address);
      }
    } else {
      var address := BadIsReached(root, node);
    }
  }

  // ---------------------------------------------------------------------
  // The traversal
  // ---------------------------------------------------------------------

  /** Entries below the directories still on the stack. */
  function Waiting(pending: seq<Node>): nat {
    if pending == [] then 0 else Waiting(pending[..|pending| - 1]) + Count(pending[|pending| - 1])
  }

  predicate WaitingGood(root: Segs, pending: seq<Node>) {
    pending != [] ==> WaitingGood(root, pending[..|pending| - 1]) && Good(root, pending[|pending| - 1])
  }

  lemma PushOne(root: Segs, pending: seq<Node>, node: Node)
    ensures Waiting(pending + [node]) == Waiting(pending) + Count(node)
    ensures WaitingGood(root, pending + [node]) <==> WaitingGood(root, pending) && Good(root, node)
  {
    assert (pending + [node])[..|pending|] == pending;
  }

  lemma NextChild(root: Segs, nodes: seq<Node>, i: nat)
    requires i < |nodes|
    ensures CountAll(nodes[i..]) == 1 + Count(nodes[i]) + CountAll(nodes[i + 1..])
    ensures GoodAll(root, nodes[i..]) <==> Admissible(root, nodes[i]) && Good(root, nodes[i]) && GoodAll(root, nodes[i + 1..])
  {
    assert nodes[i..][1..] == nodes[i + 1..];
  }

  predicate AllDirectories(pending: seq<Node>) {
    forall k :: 0 <= k < |pending| ==> pending[k].Directory?
  }

  /** What one link or other entry leads to; `Accepted` when the loop goes on. */
  method Inspect(root: RealPath, child: Node) returns (outcome: Outcome)
    ensures outcome == Accepted <==> Admissible(root, child)
    ensures outcome in {Accepted, Broken, Escape, NonRegular}
    ensures outcome == Broken <==> child == Link(None)
    ensures outcome == NonRegular <==> child.Irregular?
  {
    match child {
      case Link(destination) =>
        if destination == None {
          return Broken;
        }
        RelativeDecidesPrefix(root, destination.value);
        outcome := if LooksOutside(Relative(root, destination.value)) then Escape else Accepted;
      case Directory(_) => outcome := Accepted;
      case File => outcome := Accepted;
      case Irregular => outcome := NonRegular;
    }
  }

  /** Absolute, without control characters and commas, and not too long. */
  predicate PathBounded(path: string) {
    && 0 < |path| < 4097 && path[0] == '/'
    && forall i :: 0 <= i < |path| ==> 32 <= path[i] as int && path[i] as int != 127 && path[i] != ','
  }

  /** A character that could end a mount argument or hide in one. */
  predicate Unmountable(c: char) {
    c <= 0x1f as char || c == 0x7f as char || c == ','
  }

  /** The test of the path text, by a search for the first character it refuses. */
  method CheckPath(path: string) returns (ok: bool)
    ensures ok <==> PathBounded(path)
  {
    if path == [] || path[0] != '/' {
      return false;
    }
    for i := 0 to |path|
      invariant forall k :: 0 <= k < i ==> !Unmountable(path[k])
    {
      if Unmountable(path[i]) {
        return false;
      }
    }
    ok := |path| <= MAX_PATH;
  }

  /** `validateDockerProjectRoot`: the loop ends on every finite tree, and accepts exactly the
      bounded paths to trees of at most 100 000 entries all of which are admissible. */
  method ValidateDockerProjectRoot(path: string, top: Node, root: RealPath) returns (outcome: Outcome)
    ensures outcome == Accepted <==>
              PathBounded(path) && top.Directory? && AllReachableAdmissible(root, top) && Count(top) <= 100_000
    ensures outcome == UnboundedPath <==> !PathBounded(path)
    ensures outcome == NotDirectory <==> PathBounded(path) && !top.Directory?
    ensures outcome == TooMany ==> Count(top) > 100_000
    ensures outcome in {Broken, Escape, NonRegular} ==> !AllReachableAdmissible(root, top)
  {
    GoodIsReachable(root, top);
    var bounded := CheckPath(path);
    if !bounded {
      return UnboundedPath;
    }
    if !top.Directory? {
      return NotDirectory;
    }
    var pending := [top];
    PushOne(root, [], top);
    assert [] + [top] == pending;
    var inspected := 0;
    while pending != []
      invariant AllDirectories(pending)
      invariant inspected + Waiting(pending) == Count(top) && inspected <= MAX_ENTRIES
      invariant WaitingGood(root, pending) <==> Good(root, top)
      decreases Waiting(pending) + |pending|
    {
      var current := pending[|pending| - 1];
      ghost var measure := Waiting(pending) + |pending|;
      pending := pending[..|pending| - 1];
      var children := current.children;
      assert children[0..] == children;
      for i := 0 to |children|
        invariant AllDirectories(pending)
        invariant inspected + Waiting(pending) + CountAll(children[i..]) == Count(top) && inspected <= MAX_ENTRIES
        invariant WaitingGood(root, pending) && GoodAll(root, children[i..]) <==> Good(root, top)
        invariant Waiting(pending) + |pending| + CountAll(children[i..]) < measure
      {
        NextChild(root, children, i);
        inspected := inspected + 1;
        if inspected > MAX_ENTRIES {
          return TooMany;
        }
        outcome := Inspect(root, children[i]);
        if outcome != Accepted {
          return;
        }
        if children[i].Directory? {
          PushOne(root, pending, children[i]);
          pending := pending + [children[i]];
        }
      }
    }
    outcome := Accepted;
  }
}
