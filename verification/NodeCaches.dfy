/** What a guest remembers of its host during one scheduling cycle: the pod, and the nodes it looked up
    or listed. What the host would answer is a parameter; None stands for an error, which panics. */
module NodeCaches {
  import opened Options
  import opened Varints

  datatype Node = Node(name: string, content: bytes)

  // ----- a cycle as a value -----

  /** An info obtained in this cycle: the one of a name, or an element of the list. */
  datatype Ref = Named(name: string) | Listed(index: nat)

  /** The names looked up, the nodes delivered one by one, and the list; it is empty until the host has
      delivered one that is not. */
  datatype Memory = Memory(pod: Option<bytes>, known: set<string>, fetched: map<string, Node>, list: seq<Node>)

  const NOTHING := Memory(None, {}, map[], [])

  predicate Has(m: Memory, ref: Ref) {
    match ref
    case Named(name) => name in m.known
    case Listed(i) => i < |m.list|
  }

  /** Listed infos have no names: once there is a list, only the empty name is found. */
  function LookUp(m: Memory, name: string): (Memory, Option<Ref>) {
    if m.list == [] then (m.(known := m.known + {name}), Some(Named(name)))
    else (m, if name == "" then Some(Listed(0)) else None)
  }

  function AllOf(n: nat): (refs: seq<Ref>)
    ensures |refs| == n && forall i | 0 <= i < n :: refs[i] == Listed(i)
  {
    seq(n, i requires 0 <= i => Listed(i))
  }

  /** The last component of the results says that the host was asked. */
  function ListAll(m: Memory, answer: Option<seq<Node>>): (Memory, seq<Ref>, bool) {
    if m.list != [] then (m, AllOf(|m.list|), false)
    else if answer.None? then (m, [], true)
    else (m.(list := answer.value), AllOf(|answer.value|), true)
  }

  function Fetch(m: Memory, ref: Ref, answer: Option<Node>): (Memory, Option<Node>, bool)
    requires Has(m, ref)
  {
    match ref
    case Listed(i) => (m, Some(m.list[i]), false)
    case Named(name) =>
      if name in m.fetched then (m, Some(m.fetched[name]), false)
      else (if answer.None? then m else m.(fetched := m.fetched[name := answer.value]), answer, true)
  }

  function ReadPod(m: Memory, answer: Option<bytes>): (Memory, Option<bytes>, bool) {
    if m.pod.Some? then (m, m.pod, false) else (m.(pod := answer), answer, true)
  }

  // ----- whole cycles -----

  /** What a plugin may do, with what the host would answer; info counts the infos obtained so far. */
  datatype Access =
    | ByName(name: string)
    | All(nodes: Option<seq<Node>>)
    | Data(info: nat, node: Option<Node>)
    | ThePod(pod: Option<bytes>)

  datatype Reply =
    | Infos(refs: seq<Ref>, asked: bool)
    | NodeData(ref: Ref, data: Option<Node>, asked: bool)
    | PodData(content: Option<bytes>, asked: bool)
    | NoSuchInfo

  datatype Run = Run(memory: Memory, refs: seq<Ref>)

  predicate Holds(run: Run) {
    forall ref | ref in run.refs :: Has(run.memory, ref)
  }

  function Step(run: Run, a: Access): (r: (Run, Reply))
    requires Holds(run)
    ensures Holds(r.0)
  {
    match a
    case ByName(name) =>
      var (m, ref) := LookUp(run.memory, name);
      var refs := if ref.None? then [] else [ref.value];
      (Run(m, run.refs + refs), Infos(refs, false))
    case All(nodes) =>
      var (m, refs, asked) := ListAll(run.memory, nodes);
      (Run(m, run.refs + refs), Infos(refs, asked))
    case Data(info, node) =>
      if info >= |run.refs| then (run, NoSuchInfo)
      else
        var (m, data, asked) := Fetch(run.memory, run.refs[info], node);
        (run.(memory := m), NodeData(run.refs[info], data, asked))
    case ThePod(pod) =>
      var (m, content, asked) := ReadPod(run.memory, pod);
      (run.(memory := m), PodData(content, asked))
  }

  /** The first n accesses of a cycle. */
  function RunAt(accesses: seq<Access>, n: nat): (run: Run)
    requires n <= |accesses|
    ensures Holds(run)
  {
    if n == 0 then Run(NOTHING, []) else Step(RunAt(accesses, n - 1), accesses[n - 1]).0
  }

  function ReplyAt(accesses: seq<Access>, n: nat): Reply
    requires n < |accesses|
  {
    Step(RunAt(accesses, n), accesses[n]).1
  }

  /** One reply per access. */
  function Replies(accesses: seq<Access>, n: nat): (rs: seq<Reply>)
    requires n <= |accesses|
    ensures |rs| == n
  {
    if n == 0 then [] else Replies(accesses, n - 1) + [ReplyAt(accesses, n - 1)]
  }

  function NotAsked(r: Reply): Reply {
    match r
    case Infos(refs, _) => Infos(refs, false)
    case NodeData(ref, data, _) => NodeData(ref, data, false)
    case PodData(content, _) => PodData(content, false)
    case NoSuchInfo => NoSuchInfo
  }

  /** What is remembered stays for the rest of the cycle. */
  predicate Extends(m: Memory, m': Memory) {
    && (forall n | n in m.fetched :: n in m'.fetched && m'.fetched[n] == m.fetched[n])
    && (m.list != [] ==> m'.list == m.list)
    && (m.pod.Some? ==> m'.pod == m.pod)
  }

  lemma {:induction false} RunExtends(accesses: seq<Access>, i: nat, j: nat)
    requires i <= j <= |accesses|
    ensures Extends(RunAt(accesses, i).memory, RunAt(accesses, j).memory)
    decreases j
  {
    if i < j {
      RunExtends(accesses, i, j - 1);
      StepExtends(RunAt(accesses, j - 1), accesses[j - 1]);
    }
  }

  lemma StepExtends(run: Run, a: Access)
    requires Holds(run)
    ensures Extends(run.memory, Step(run, a).0.memory)
  {
  }

  /** Access i delivered the node of the given info. */
  predicate Delivers(accesses: seq<Access>, i: nat, ref: Ref)
    requires i < |accesses|
  {
    var r := ReplyAt(accesses, i);
    r.NodeData? && r.ref == ref && r.data.Some?
  }

  predicate DeliversList(accesses: seq<Access>, i: nat)
    requires i < |accesses|
  {
    accesses[i].All? && ReplyAt(accesses, i).refs != []
  }

  predicate DeliversPod(accesses: seq<Access>, i: nat)
    requires i < |accesses|
  {
    accesses[i].ThePod? && ReplyAt(accesses, i).content.Some?
  }

  /** What an info, the list or the pod was given once it is given again for the rest of the cycle, without
      asking the host. */
  lemma DeliveredOnce(accesses: seq<Access>, i: nat, j: nat)
    requires i < j < |accesses|
    ensures ReplyAt(accesses, j).NodeData? && Delivers(accesses, i, ReplyAt(accesses, j).ref) ==>
              ReplyAt(accesses, j) == NotAsked(ReplyAt(accesses, i))
    ensures accesses[j].All? && DeliversList(accesses, i) ==>
              ReplyAt(accesses, j) == NotAsked(ReplyAt(accesses, i))
    ensures accesses[j].ThePod? && DeliversPod(accesses, i) ==>
              ReplyAt(accesses, j) == NotAsked(ReplyAt(accesses, i))
  {
    hide RunAt, Extends, Fetch;
    RunUnfolds(accesses, i);
    RunExtends(accesses, i + 1, j);
    var run, run' := RunAt(accesses, i), RunAt(accesses, j);
    if ReplyAt(accesses, j).NodeData? && Delivers(accesses, i, ReplyAt(accesses, j).ref) {
      FetchAgain(run.memory, ReplyAt(accesses, j).ref, accesses[i].node, run'.memory, accesses[j].node);
    }
    if accesses[j].All? && DeliversList(accesses, i) {
      ListAgain(run.memory, accesses[i].nodes, run'.memory, accesses[j].nodes);
    }
    if accesses[j].ThePod? && DeliversPod(accesses, i) {
      PodAgain(run.memory, accesses[i].pod, run'.memory, accesses[j].pod);
    }
  }

  lemma FetchAgain(m: Memory, ref: Ref, a: Option<Node>, m': Memory, b: Option<Node>)
    requires Has(m, ref) && Has(m', ref)
    requires Fetch(m, ref, a).1.Some? && Extends(Fetch(m, ref, a).0, m')
    ensures Fetch(m', ref, b) == (m', Fetch(m, ref, a).1, false)
  {
  }

  lemma ListAgain(m: Memory, a: Option<seq<Node>>, m': Memory, b: Option<seq<Node>>)
    requires ListAll(m, a).1 != [] && Extends(ListAll(m, a).0, m')
    ensures ListAll(m', b) == (m', ListAll(m, a).1, false)
  {
  }

  lemma PodAgain(m: Memory, a: Option<bytes>, m': Memory, b: Option<bytes>)
    requires ReadPod(m, a).1.Some? && Extends(ReadPod(m, a).0, m')
    ensures ReadPod(m', b) == (m', ReadPod(m, a).1, false)
  {
  }

  lemma RunUnfolds(accesses: seq<Access>, i: nat)
    requires i < |accesses|
    ensures RunAt(accesses, i + 1) == Step(RunAt(accesses, i), accesses[i]).0
  {
  }

  /** The memory holds exactly what has been delivered. */
  lemma {:induction false} MemoryIsDelivered(accesses: seq<Access>, j: nat)
    requires j <= |accesses|
    ensures forall n :: n in RunAt(accesses, j).memory.fetched <==> exists i :: 0 <= i < j && Delivers(accesses, i, Named(n))
    ensures RunAt(accesses, j).memory.list != [] <==> exists i :: 0 <= i < j && DeliversList(accesses, i)
    ensures RunAt(accesses, j).memory.pod.Some? <==> exists i :: 0 <= i < j && DeliversPod(accesses, i)
  {
    hide *;
    if j == 0 {
      RunStarts(accesses);
    } else {
      MemoryIsDelivered(accesses, j - 1);
      StepDelivers(accesses, j - 1);
    }
  }

  lemma StepDelivers(accesses: seq<Access>, j: nat)
    requires j < |accesses|
    ensures var m, m' := RunAt(accesses, j).memory, RunAt(accesses, j + 1).memory;
            && (forall n :: n in m'.fetched <==> n in m.fetched || Delivers(accesses, j, Named(n)))
            && (m'.list != [] <==> m.list != [] || DeliversList(accesses, j))
            && (m'.pod.Some? <==> m.pod.Some? || DeliversPod(accesses, j))
  {
  }

  /** The host is asked for the node of an info exactly if the info was obtained by name and has not been
      given its node before; for the list and the pod, exactly if they have not been delivered before. */
  lemma AsksExactlyWhenMissing(accesses: seq<Access>, j: nat)
    requires j < |accesses|
    ensures var r := ReplyAt(accesses, j);
            r.NodeData? ==> (r.asked <==> r.ref.Named? && !exists i :: 0 <= i < j && Delivers(accesses, i, r.ref))
    ensures accesses[j].All? ==>
              (ReplyAt(accesses, j).asked <==> !exists i :: 0 <= i < j && DeliversList(accesses, i))
    ensures accesses[j].ThePod? ==>
              (ReplyAt(accesses, j).asked <==> !exists i :: 0 <= i < j && DeliversPod(accesses, i))
  {
    hide RunAt;
    MemoryIsDelivered(accesses, j);
  }

  /** A name gives its own info up to the first list that was delivered, and no longer: from then on only
      the empty name gives an info, the first of the list. */
  lemma FindsUntilListed(accesses: seq<Access>, j: nat)
    requires j < |accesses| && accesses[j].ByName?
    ensures ReplyAt(accesses, j) == Infos([Named(accesses[j].name)], false) <==>
            !exists i :: 0 <= i < j && DeliversList(accesses, i)
    ensures (exists i :: 0 <= i < j && DeliversList(accesses, i)) ==>
              ReplyAt(accesses, j) == Infos(if accesses[j].name == "" then [Listed(0)] else [], false)
  {
    hide RunAt;
    MemoryIsDelivered(accesses, j);
  }

  // ----- what is delivered is the host's answer -----

  lemma AskedReply(accesses: seq<Access>, j: nat)
    requires j < |accesses|
    ensures var r := ReplyAt(accesses, j);
            && (accesses[j].ThePod? && r.asked ==> r.content == accesses[j].pod)
            && (r.NodeData? && r.asked ==> r.data == accesses[j].node)
            && (accesses[j].All? && r.asked ==>
                && |r.refs| == (if accesses[j].nodes.None? then 0 else |accesses[j].nodes.value|)
                && forall k | 0 <= k < |r.refs| :: r.refs[k] == Listed(k))
  {
    hide RunAt;
  }

  lemma MemoryOfList(accesses: seq<Access>, i: nat, j: nat)
    requires i < j <= |accesses| && accesses[i].All? && ReplyAt(accesses, i).asked
    requires accesses[i].nodes.Some? && accesses[i].nodes.value != []
    ensures RunAt(accesses, j).memory.list == accesses[i].nodes.value
  {
    RunUnfolds(accesses, i);
    RunExtends(accesses, i + 1, j);
    hide RunAt;
  }

  /** The list that the host delivered is the list for the rest of the cycle: one info per node, in the
      host's order, and reading an info of it gives its node without asking. */
  lemma ListIsTheAnswer(accesses: seq<Access>, i: nat, j: nat, nodes: seq<Node>)
    requires i < j < |accesses| && accesses[i] == All(Some(nodes)) && nodes != [] && ReplyAt(accesses, i).asked
    ensures |ReplyAt(accesses, i).refs| == |nodes|
    ensures forall k | 0 <= k < |nodes| :: ReplyAt(accesses, i).refs[k] == Listed(k)
    ensures accesses[j].All? ==> ReplyAt(accesses, j) == Infos(ReplyAt(accesses, i).refs, false)
    ensures forall k | 0 <= k < |nodes| && ReplyAt(accesses, j).NodeData? && ReplyAt(accesses, j).ref == Listed(k) ::
              ReplyAt(accesses, j) == NodeData(Listed(k), Some(nodes[k]), false)
  {
    AskedReply(accesses, i);
    MemoryOfList(accesses, i, j);
    hide RunAt;
    if accesses[j].All? { assert ReplyAt(accesses, j).refs == ReplyAt(accesses, i).refs; }
  }

  /** So for the pod and for the node of an info obtained by name. */
  lemma AnswersAreKept(accesses: seq<Access>, i: nat, j: nat)
    requires i < j < |accesses|
    ensures accesses[i].ThePod? && accesses[i].pod.Some? && ReplyAt(accesses, i).asked && accesses[j].ThePod? ==>
              ReplyAt(accesses, j) == PodData(accesses[i].pod, false)
    ensures ReplyAt(accesses, i).NodeData? && accesses[i].node.Some? && ReplyAt(accesses, i).asked
            && ReplyAt(accesses, j).NodeData? && ReplyAt(accesses, j).ref == ReplyAt(accesses, i).ref ==>
              ReplyAt(accesses, j) == NodeData(ReplyAt(accesses, i).ref, accesses[i].node, false)
  {
    hide RunAt;
    AskedReply(accesses, i);
    DeliveredOnce(accesses, i, j);
  }

  // ----- a node that is delivered twice -----

  /** Access i makes the host deliver a list with a node of that name. */
  predicate SendsInList(accesses: seq<Access>, i: nat, name: string)
    requires i < |accesses|
  {
    && accesses[i].All? && ReplyAt(accesses, i).asked && accesses[i].nodes.Some?
    && exists node :: node in accesses[i].nodes.value && node.name == name
  }

  /** Access i makes the host deliver the node of that name on its own. */
  predicate SendsAlone(accesses: seq<Access>, i: nat, name: string)
    requires i < |accesses|
  {
    Delivers(accesses, i, Named(name)) && ReplyAt(accesses, i).asked
  }

  lemma {:induction false} KnownByLookUp(accesses: seq<Access>, j: nat, name: string) returns (l: nat)
    requires j <= |accesses| && name in RunAt(accesses, j).memory.known
    ensures l < j && accesses[l] == ByName(name) && RunAt(accesses, l).memory.list == []
  {
    if name in RunAt(accesses, j - 1).memory.known {
      l := KnownByLookUp(accesses, j - 1, name);
    } else {
      l := j - 1;
    }
  }

  lemma ListStays(accesses: seq<Access>, i: nat, j: nat)
    requires i < j <= |accesses| && DeliversList(accesses, i)
    ensures RunAt(accesses, j).memory.list != []
  {
    hide RunAt;
    MemoryIsDelivered(accesses, j);
  }

  lemma ObtainedByLookUp(accesses: seq<Access>, i: nat, j: nat, name: string) returns (l: nat)
    requires i < j < |accesses| && DeliversList(accesses, i)
    requires ReplyAt(accesses, j).NodeData? && ReplyAt(accesses, j).ref == Named(name)
    ensures l < i && accesses[l] == ByName(name)
  {
    ReadIsKnown(accesses, j);
    hide RunAt, ReplyAt;
    l := KnownByLookUp(accesses, j, name);
    if l > i {
      ListStays(accesses, i, l);
    }
  }

  /** Only infos that were obtained can be read; a node that was asked for is the host's answer. */
  lemma ReadIsKnown(accesses: seq<Access>, j: nat)
    requires j < |accesses| && ReplyAt(accesses, j).NodeData?
    ensures var r := ReplyAt(accesses, j);
            Has(RunAt(accesses, j).memory, r.ref) && (r.asked ==> r.data == accesses[j].node)
  {
    hide RunAt;
  }

  /** After a list with the node, an info of that name was obtained before the list, and the first read
      of it that succeeds makes the host deliver the node once more. */
  lemma DeliversListedNodeAgain(accesses: seq<Access>, i: nat, j: nat, name: string)
    requires i < j < |accesses| && SendsInList(accesses, i, name)
    requires ReplyAt(accesses, j).NodeData? && ReplyAt(accesses, j).ref == Named(name)
    ensures exists l :: 0 <= l < i && accesses[l] == ByName(name)
    ensures SendsAlone(accesses, j, name) <==>
            accesses[j].node.Some? && !exists k :: 0 <= k < j && Delivers(accesses, k, Named(name))
  {
    ListArrives(accesses, i, name);
    var l := ObtainedByLookUp(accesses, i, j, name);
    ReadIsKnown(accesses, j);
    hide RunAt, ReplyAt;
    AsksExactlyWhenMissing(accesses, j);
  }

  lemma ListArrives(accesses: seq<Access>, i: nat, name: string)
    requires i < |accesses| && SendsInList(accesses, i, name)
    ensures DeliversList(accesses, i)
  {
    hide RunAt;
  }

  /** No node is delivered more than twice in a cycle: once in a list, and once on its own. */
  lemma DeliveredAtMostTwice(accesses: seq<Access>, i: nat, j: nat, name: string)
    requires i < j < |accesses|
    requires SendsInList(accesses, i, name) || SendsAlone(accesses, i, name)
    requires SendsInList(accesses, j, name) || SendsAlone(accesses, j, name)
    ensures SendsInList(accesses, i, name) <==> SendsAlone(accesses, j, name)
  {
    hide RunAt;
    DeliveredOnce(accesses, i, j);
    if SendsInList(accesses, i, name) { ListArrives(accesses, i, name); }
  }

  lemma ListedNodeCanBeFetchedAgain(name: string, content: bytes, node: Option<Node>)
    ensures var accesses := [ByName(name), All(Some([Node(name, content)])), Data(0, node)];
            ReplyAt(accesses, 2) == NodeData(Named(name), node, true)
  {
    var accesses := [ByName(name), All(Some([Node(name, content)])), Data(0, node)];
    assert RunAt(accesses, 1) == Step(RunAt(accesses, 0), accesses[0]).0;
    assert RunAt(accesses, 2) == Step(RunAt(accesses, 1), accesses[1]).0;
  }

  // ----- the objects of the guest -----

  /** A node info created by name fetches its node when it is first needed. */
  class NodeInfo {
    const name: string
    var node: Option<Node>

    constructor (name: string, node: Option<Node>)
      ensures this.name == name && this.node == node
    {
      this.name, this.node := name, node;
    }

    /** asked says that the host was asked for the node called name. */
    method LazyNode(answer: Option<Node>) returns (r: Option<Node>, asked: bool)
      modifies this
      ensures asked <==> old(node).None?
      ensures r == node == if asked then answer else old(node)
    {
      if node.Some? {
        return node, false;
      }
      if answer.None? {
        return None, true;
      }
      node := answer;
      return node, true;
    }
  }

  function Nodes(infos: seq<NodeInfo>): (nodes: seq<Node>)
    requires forall o | o in infos :: o.node.Some?
    reads infos
    ensures |nodes| == |infos| && forall i | 0 <= i < |infos| :: nodes[i] == infos[i].node.value
  {
    if infos == [] then [] else [infos[0].node.value] + Nodes(infos[1..])
  }

  class Cycle {
    var currentPod: Option<bytes>
    var currentNodeInfoList: seq<NodeInfo>
    var isFullNodeInfoList: bool
    /** The node infos that Get created in this cycle, by name. */
    ghost var created: map<string, NodeInfo>

    ghost predicate Valid()
      reads this, created.Values, currentNodeInfoList
    {
      && (forall n | n in created :: created[n].name == n)
      && (forall i, j | 0 <= i < j < |currentNodeInfoList| :: currentNodeInfoList[i] != currentNodeInfoList[j])
      && (if isFullNodeInfoList then
            && currentNodeInfoList != []
            && forall o | o in currentNodeInfoList :: o.name == "" && o.node.Some? && o !in created.Values
          else
            && (forall n | n in created :: created[n] in currentNodeInfoList)
            && forall o | o in currentNodeInfoList :: o.name in created && created[o.name] == o)
    }

    ghost function View(): Memory
      requires Valid()
      reads this, created.Values, currentNodeInfoList
    {
      Memory(currentPod, created.Keys, map n | n in created && created[n].node.Some? :: created[n].node.value,
             if isFullNodeInfoList then Nodes(currentNodeInfoList) else [])
    }

    /** o is the object of ref. */
    ghost predicate Is(o: NodeInfo, ref: Ref)
      reads this
    {
      match ref
      case Named(name) => name in created && created[name] == o
      case Listed(i) => isFullNodeInfoList && i < |currentNodeInfoList| && currentNodeInfoList[i] == o
    }

    constructor ()
      ensures Valid() && View() == NOTHING
    {
      currentPod, currentNodeInfoList, isFullNodeInfoList := None, [], false;
      created := map[];
    }

    /** The beginning of a cycle forgets everything, in whatever state the last one ended. */
    method PreFilter()
      modifies this
      ensures Valid() && View() == NOTHING
      ensures created == map[] && currentNodeInfoList == []
    {
      currentPod := None;
      currentNodeInfoList := [];
      isFullNodeInfoList := false;
      created := map[];
    }

    method LazyPod(answer: Option<bytes>) returns (r: Option<bytes>, asked: bool)
      requires Valid()
      modifies this`currentPod
      ensures Valid() && (View(), r, asked) == ReadPod(old(View()), answer)
    {
      if currentPod.Some? {
        return currentPod, false;
      }
      hide Nodes;
      ghost var m := View();
      currentPod := answer;
      assert View() == m.(pod := answer);
      return answer, true;
    }

    /** The first info of that name. */
    static method Find(infos: seq<NodeInfo>, nodeName: string) returns (item: NodeInfo?)
      ensures item == null ==> forall o | o in infos :: o.name != nodeName
      ensures item != null ==>
        item.name == nodeName &&
        exists i :: 0 <= i < |infos| && infos[i] == item && forall k | 0 <= k < i :: infos[k].name != nodeName
    {
      for i := 0 to |infos|
        invariant forall k | 0 <= k < i :: infos[k].name != nodeName
      {
        if infos[i].name == nodeName {
          return infos[i];
        }
      }
      return null;
    }

    /** Infos obtained before keep their objects. */
    method Get(nodeName: string) returns (r: NodeInfo?)
      requires Valid()
      modifies this`currentNodeInfoList, this`created
      ensures Valid()
      ensures var (m, ref) := LookUp(old(View()), nodeName);
              View() == m && if ref.None? then r == null else r != null && Is(r, ref.value)
      ensures forall n | n in created ::
                if n in old(created) then created[n] == old(created)[n] else fresh(created[n])
      ensures old(created).Keys <= created.Keys
      ensures forall o | o in currentNodeInfoList :: o in old(currentNodeInfoList) || fresh(o)
      ensures isFullNodeInfoList ==> currentNodeInfoList == old(currentNodeInfoList)
    {
      if isFullNodeInfoList { assert currentNodeInfoList[0] in currentNodeInfoList; }
      var item := Find(currentNodeInfoList, nodeName);
      if item != null {
        return item;
      }
      if isFullNodeInfoList {
        return null;
      }
      assert nodeName !in created;
      r := Remember(nodeName);
    }

    /** A new info without data, stored so that the same name will find it. */
    method Remember(nodeName: string) returns (ni: NodeInfo)
      requires Valid() && !isFullNodeInfoList && nodeName !in created
      modifies this`currentNodeInfoList, this`created
      ensures Valid() && View() == old(View()).(known := old(View()).known + {nodeName})
      ensures fresh(ni) && created == old(created)[nodeName := ni]
      ensures currentNodeInfoList == old(currentNodeInfoList) + [ni]
    {
      hide Nodes;
      ghost var m := View();
      ni := new NodeInfo(nodeName, None);
      assert forall n | n in created :: created[n] != ni;
      currentNodeInfoList := currentNodeInfoList + [ni];
      created := created[nodeName := ni];
      assert View().fetched == m.fetched;
    }

    /** Data of an info obtained in this cycle. */
    method NodeOf(ni: NodeInfo, ghost ref: Ref, answer: Option<Node>) returns (r: Option<Node>, asked: bool)
      requires Valid() && Is(ni, ref)
      modifies ni
      ensures Valid() && Has(old(View()), ref)
      ensures (View(), r, asked) == Fetch(old(View()), ref, answer)
    {
      hide Nodes;
      ghost var m := View();
      if ref.Listed? { assert ni in currentNodeInfoList; }
      r, asked := ni.LazyNode(answer);
      assert asked && r.Some? ==> View() == m.(fetched := m.fetched[ni.name := r.value]);
      assert !asked || r.None? ==> View() == m;
    }

    /** The infos of all nodes, in the host's order. An empty answer is not remembered. */
    method List(answer: Option<seq<Node>>) returns (items: seq<NodeInfo>, asked: bool)
      requires Valid()
      modifies this`currentNodeInfoList, this`isFullNodeInfoList
      ensures Valid()
      ensures var (m, refs, a) := ListAll(old(View()), answer);
              && View() == m && asked == a && |items| == |refs|
              && forall i | 0 <= i < |items| :: Is(items[i], refs[i])
      ensures asked && answer.Some? ==>
        && |items| == |answer.value|
        && forall i | 0 <= i < |items| :: items[i].node == Some(answer.value[i]) && items[i].name == ""
      ensures forall o | o in items :: fresh(o) || o in old(currentNodeInfoList)
      ensures if isFullNodeInfoList then items == currentNodeInfoList
              else currentNodeInfoList == old(currentNodeInfoList)
      ensures old(isFullNodeInfoList) ==> isFullNodeInfoList && currentNodeInfoList == old(currentNodeInfoList)
    {
      hide Nodes;
      if isFullNodeInfoList {
        return currentNodeInfoList, false;
      }
      if answer.None? {
        return [], true;
      }
      var size := |answer.value|;
      if size == 0 {
        return [], true;
      }
      ghost var m := View();
      items := NewInfos(answer.value);
      currentNodeInfoList := items;
      isFullNodeInfoList := true;
      assert View() == m.(list := answer.value);
      return items, true;
    }

    /** One info per node; none is given a name. */
    static method NewInfos(nodes: seq<Node>) returns (items: seq<NodeInfo>)
      ensures forall o | o in items :: fresh(o) && o.name == "" && o.node.Some?
      ensures Nodes(items) == nodes
      ensures forall k, l | 0 <= k < l < |items| :: items[k] != items[l]
    {
      hide Nodes;
      items := [];
      for i := 0 to |nodes|
        invariant |items| == i
        invariant forall o | o in items :: fresh(o) && o.name == "" && o.node.Some?
        invariant forall k | 0 <= k < i :: items[k].node == Some(nodes[k])
        invariant forall k, l | 0 <= k < l < i :: items[k] != items[l]
      {
        var item := new NodeInfo("", Some(nodes[i]));
        items := items + [item];
      }
      assert Nodes(items) == nodes;
    }
  }

  ghost function Objects(c: Cycle): set<NodeInfo>
    reads c
  {
    c.created.Values + set o | o in c.currentNodeInfoList
  }

  /** The infos are the objects of the references. */
  ghost predicate Obtained(c: Cycle, infos: seq<NodeInfo>, refs: seq<Ref>)
    reads c
  {
    |infos| == |refs| && forall i | 0 <= i < |infos| :: c.Is(infos[i], refs[i])
  }

  lemma ObtainedInfosHold(c: Cycle, infos: seq<NodeInfo>, refs: seq<Ref>)
    requires c.Valid() && Obtained(c, infos, refs)
    ensures Holds(Run(c.View(), refs))
  {
  }

  lemma OneObjectPerRef(c: Cycle, infos: seq<NodeInfo>, refs: seq<Ref>)
    requires c.Valid() && Obtained(c, infos, refs)
    ensures |infos| == |refs|
    ensures forall i, j | 0 <= i < |infos| && 0 <= j < |infos| :: infos[i] == infos[j] <==> refs[i] == refs[j]
  {
    forall i | 0 <= i < |infos| && refs[i].Listed?
      ensures infos[i] in c.currentNodeInfoList
    {
      assert c.Is(infos[i], refs[i]);
    }
  }

  lemma {:induction false} RepliesInOrder(accesses: seq<Access>, n: nat, k: nat)
    requires k < n <= |accesses|
    ensures Replies(accesses, n)[k] == ReplyAt(accesses, k)
  {
    if k < n - 1 { RepliesInOrder(accesses, n - 1, k); }
  }

  lemma RepliesUnfold(accesses: seq<Access>, i: nat)
    requires i < |accesses|
    ensures Replies(accesses, i + 1) == Replies(accesses, i) + [Step(RunAt(accesses, i), accesses[i]).1]
  {
  }

  lemma RunStarts(accesses: seq<Access>)
    ensures Replies(accesses, 0) == []
    ensures RunAt(accesses, 0) == Run(NOTHING, [])
    ensures NOTHING == Memory(None, {}, map[], [])
  {
  }

  lemma FullHasList(c: Cycle)
    requires c.Valid()
    ensures c.View().list == [] <==> !c.isFullNodeInfoList
  {
  }

  lemma ObtainedAt(c: Cycle, infos: seq<NodeInfo>, refs: seq<Ref>, i: nat)
    requires c.Valid() && Obtained(c, infos, refs) && i < |infos|
    ensures |infos| == |refs| && c.Is(infos[i], refs[i]) && infos[i] in Objects(c)
  {
    assert c.Is(infos[i], refs[i]);
  }

  method PerformByName(c: Cycle, infos: seq<NodeInfo>, refs: seq<Ref>, name: string)
    returns (found: seq<NodeInfo>, more: seq<Ref>)
    requires c.Valid() && Obtained(c, infos, refs)
    modifies c
    ensures c.Valid() && Obtained(c, infos + found, refs + more)
    ensures var (m, ref) := LookUp(old(c.View()), name);
            c.View() == m && more == if ref.None? then [] else [ref.value]
    ensures forall o | o in Objects(c) :: o in old(Objects(c)) || fresh(o)
  {
    var full := c.isFullNodeInfoList;
    FullHasList(c);
    hide Cycle.Valid, Cycle.View;
    var r := c.Get(name);
    if r == null {
      return [], [];
    }
    return [r], [if full then Listed(0) else Named(name)];
  }

  method PerformAll(c: Cycle, infos: seq<NodeInfo>, refs: seq<Ref>, nodes: Option<seq<Node>>)
    returns (found: seq<NodeInfo>, more: seq<Ref>, asked: bool)
    requires c.Valid() && Obtained(c, infos, refs)
    modifies c
    ensures c.Valid() && Obtained(c, infos + found, refs + more)
    ensures (c.View(), more, asked) == ListAll(old(c.View()), nodes)
    ensures forall o | o in Objects(c) :: o in old(Objects(c)) || fresh(o)
  {
    hide Cycle.Valid, Cycle.View;
    found, asked := c.List(nodes);
    more := AllOf(|found|);
  }

  /** One access; infos are the objects obtained so far, and found the ones that it adds. */
  method Perform(c: Cycle, infos: seq<NodeInfo>, refs: seq<Ref>, a: Access)
    returns (found: seq<NodeInfo>, reply: Reply)
    requires c.Valid() && Obtained(c, infos, refs)
    requires Holds(Run(c.View(), refs))
    modifies c, Objects(c)
    ensures c.Valid()
    ensures Step(Run(old(c.View()), refs), a) ==
            (Run(c.View(), refs + if reply.Infos? then reply.refs else []), reply)
    ensures Obtained(c, infos + found, refs + if reply.Infos? then reply.refs else [])
    ensures forall o | o in Objects(c) :: o in old(Objects(c)) || fresh(o)
  {
    SameLength(c, infos, refs);
    hide *;
    var more: seq<Ref>;
    match a {
      case ByName(name) =>
        found, more := PerformByName(c, infos, refs, name);
        StepByName(Run(old(c.View()), refs), name);
        reply := Infos(more, false);
      case All(nodes) =>
        var asked;
        found, more, asked := PerformAll(c, infos, refs, nodes);
        StepAll(Run(old(c.View()), refs), nodes);
        reply := Infos(more, asked);
      case Data(info, node) =>
        found := [];
        StepData(Run(c.View(), refs), info, node);
        if info >= |infos| {
          reply := NoSuchInfo;
        } else {
          ObtainedAt(c, infos, refs, info);
          var data, asked := c.NodeOf(infos[info], refs[info], node);
          reply := NodeData(refs[info], data, asked);
        }
        assert infos + found == infos && refs + [] == refs;
      case ThePod(pod) =>
        found := [];
        StepPod(Run(c.View(), refs), pod);
        var content, asked := c.LazyPod(pod);
        reply := PodData(content, asked);
        assert infos + found == infos && refs + [] == refs;
    }
  }

  lemma SameLength(c: Cycle, infos: seq<NodeInfo>, refs: seq<Ref>)
    requires Obtained(c, infos, refs)
    ensures |infos| == |refs|
  {
  }

  lemma StepByName(run: Run, name: string)
    requires Holds(run)
    ensures var (m, ref) := LookUp(run.memory, name);
            var refs := if ref.None? then [] else [ref.value];
            Step(run, ByName(name)) == (Run(m, run.refs + refs), Infos(refs, false))
  {
  }

  lemma StepAll(run: Run, nodes: Option<seq<Node>>)
    requires Holds(run)
    ensures var (m, refs, asked) := ListAll(run.memory, nodes);
            Step(run, All(nodes)) == (Run(m, run.refs + refs), Infos(refs, asked))
  {
  }

  lemma StepData(run: Run, info: nat, node: Option<Node>)
    requires Holds(run)
    ensures info >= |run.refs| ==> Step(run, Data(info, node)) == (run, NoSuchInfo)
    ensures info < |run.refs| ==>
              Has(run.memory, run.refs[info]) &&
              var (m, data, asked) := Fetch(run.memory, run.refs[info], node);
              Step(run, Data(info, node)) == (run.(memory := m), NodeData(run.refs[info], data, asked))
  {
  }

  lemma StepPod(run: Run, pod: Option<bytes>)
    requires Holds(run)
    ensures var (m, content, asked) := ReadPod(run.memory, pod);
            Step(run, ThePod(pod)) == (run.(memory := m), PodData(content, asked))
  {
  }

  /** The objects after k accesses: the cycle as a value, its infos and its replies. */
  ghost predicate Reached(c: Cycle, accesses: seq<Access>, k: nat, infos: seq<NodeInfo>, refs: seq<Ref>, replies: seq<Reply>)
    reads c, c.created.Values, c.currentNodeInfoList
  {
    && k <= |accesses| && c.Valid()
    && RunAt(accesses, k) == Run(c.View(), refs) && Obtained(c, infos, refs) && replies == Replies(accesses, k)
  }

  method Advance(c: Cycle, accesses: seq<Access>, k: nat, infos: seq<NodeInfo>, refs: seq<Ref>, replies: seq<Reply>)
    returns (infos': seq<NodeInfo>, refs': seq<Ref>, replies': seq<Reply>)
    requires k < |accesses| && Reached(c, accesses, k, infos, refs, replies)
    modifies c, Objects(c)
    ensures Reached(c, accesses, k + 1, infos', refs', replies')
    ensures forall o | o in Objects(c) :: o in old(Objects(c)) || fresh(o)
  {
    ObtainedInfosHold(c, infos, refs);
    RunUnfolds(accesses, k);
    RepliesUnfold(accesses, k);
    hide Step, Replies, RunAt, Objects, Obtained, Cycle.Valid, Cycle.View, Cycle.Is, Holds;
    var found, reply := Perform(c, infos, refs, accesses[k]);
    var more := if reply.Infos? then reply.refs else [];
    return infos + found, refs + more, replies + [reply];
  }

  /** Any accesses of a plugin in one cycle, with any answers of the host: every reply is the one that the
      cycle as a value gives, and two infos are one object exactly if they have one reference. */
  method RunCycle(c: Cycle, accesses: seq<Access>) returns (infos: seq<NodeInfo>, replies: seq<Reply>)
    modifies c
    ensures replies == Replies(accesses, |accesses|)
    ensures c.Valid() && c.View() == RunAt(accesses, |accesses|).memory
    ensures var refs := RunAt(accesses, |accesses|).refs;
            && |infos| == |refs|
            && forall i, j | 0 <= i < |infos| && 0 <= j < |infos| :: infos[i] == infos[j] <==> refs[i] == refs[j]
  {
    hide *;
    c.PreFilter();
    infos, replies := [], [];
    var refs: seq<Ref> := [];
    NothingReached(c, accesses);
    for k := 0 to |accesses|
      invariant Reached(c, accesses, k, infos, refs, replies)
      invariant forall o | o in Objects(c) :: fresh(o)
    {
      infos, refs, replies := Advance(c, accesses, k, infos, refs, replies);
    }
    AllReached(c, accesses, infos, refs, replies);
  }

  lemma NothingReached(c: Cycle, accesses: seq<Access>)
    requires c.Valid() && c.View() == NOTHING && c.created == map[] && c.currentNodeInfoList == []
    ensures Reached(c, accesses, 0, [], [], []) && Objects(c) == {}
  {
    RunStarts(accesses);
  }

  lemma AllReached(c: Cycle, accesses: seq<Access>, infos: seq<NodeInfo>, refs: seq<Ref>, replies: seq<Reply>)
    requires Reached(c, accesses, |accesses|, infos, refs, replies)
    ensures c.Valid() && replies == Replies(accesses, |accesses|)
    ensures RunAt(accesses, |accesses|) == Run(c.View(), refs)
    ensures |infos| == |refs|
    ensures forall i, j | 0 <= i < |infos| && 0 <= j < |infos| :: infos[i] == infos[j] <==> refs[i] == refs[j]
  {
    hide Replies, RunAt;
    OneObjectPerRef(c, infos, refs);
  }
}
