/**
 * `LightWorker`: the modifier stack of one light. Modifiers live in one list per
 * priority (a sorted dictionary of linked lists); the current node is the one
 * whose colour, intensity and enabled flag the light shows. The rule the code
 * aims at: the highest non-empty priority wins, and within a priority the newest
 * entry wins.
 *
 * Linked-list nodes are named by `NodeId`s handed out in creation order; a list
 * is the sequence of its node ids and `nodeValue` gives each node's modifier.
 * A removed node keeps its modifier, as a detached `LinkedListNode` keeps its
 * `Value`. Colour and intensity are opaque: they are carried, compared and
 * written to the light, never computed with.
 */
module LightWorkers {
  import opened Wrappers

  type Color(==)
  type Intensity(==)

  const NormalPriority: int := 1000
  const EMPPriority: int := 2000
  const OrigPriority: int := -1000

  type NodeId = nat

  // ---- The list structure as a value ----

  /** The current node and the priority of its modifier. */
  datatype Current = Current(node: NodeId, priority: int)

  /** The lists by priority and the current node. */
  datatype Stacks = Stacks(lists: map<int, seq<NodeId>>, current: Option<Current>)

  /** Every node is in at most one list, at most once. */
  ghost predicate StacksOk(s: Stacks) {
    forall p, q, i, j | p in s.lists && q in s.lists && 0 <= i < |s.lists[p]| && 0 <= j < |s.lists[q]| && s.lists[p][i] == s.lists[q][j] ::
      p == q && i == j
  }

  /** `GetOrAddNew` on the dictionary: the list of priority `p`, empty when there is none yet. */
  function Stack(lists: map<int, seq<NodeId>>, p: int): seq<NodeId> {
    if p in lists then lists[p] else []
  }

  predicate NonEmpty(lists: map<int, seq<NodeId>>, p: int) {
    p in lists && |lists[p]| > 0
  }

  /** `p` is the highest priority with a non-empty list. */
  predicate IsTop(lists: map<int, seq<NodeId>>, p: int) {
    NonEmpty(lists, p) && forall q | q in lists && |lists[q]| > 0 :: q <= p
  }

  /** Some element of a non-empty set. */
  ghost function Pick(xs: set<int>): (x: int)
    requires xs != {}
    ensures x in xs
  {
    NoElementEmpty(xs);
    var x :| x in xs; x
  }

  lemma NoElementEmpty(xs: set<int>)
    ensures (forall x :: x !in xs) ==> xs == {}
  {
    if forall x :: x !in xs {
      assert xs == {};
    }
  }

  /** The largest element of a non-empty set. */
  ghost function MaxOf(xs: set<int>): (m: int)
    requires xs != {}
    ensures m in xs && forall k | k in xs :: k <= m
    decreases |xs|
  {
    var x := Pick(xs);
    var rest := xs - {x};
    if rest == {} then
      assert forall y | y in xs :: y == x by {
        forall y | y in xs ensures y == x { assert y !in rest; }
      }
      x
    else
      var r := MaxOf(rest);
      var m := if x < r then r else x;
      assert forall k | k in xs :: k <= m by {
        forall k | k in xs ensures k <= m { if k != x { assert k in rest; } }
      }
      m
  }

  /** The highest non-empty priority, when some list is non-empty (`Values.Last(list => list.Count > 0)`). */
  ghost function Top(lists: map<int, seq<NodeId>>): (t: Option<int>)
    ensures t.Some? <==> exists p :: NonEmpty(lists, p)
    ensures t.Some? ==> IsTop(lists, t.value)
  {
    var keys := set p | p in lists && |lists[p]| > 0;
    assert forall p | NonEmpty(lists, p) :: p in keys;
    if keys == {} then
      None
    else
      var t := MaxOf(keys);
      assert NonEmpty(lists, t);
      assert forall q | q in lists && |lists[q]| > 0 :: q <= t by {
        forall q | q in lists && |lists[q]| > 0 ensures q <= t { assert q in keys; }
      }
      Some(t)
  }

  lemma TopIs(lists: map<int, seq<NodeId>>, p: int)
    requires IsTop(lists, p)
    ensures Top(lists) == Some(p)
  {
  }

  function Last(xs: seq<NodeId>): NodeId
    requires xs != []
  {
    xs[|xs| - 1]
  }

  function RemoveAt(xs: seq<NodeId>, i: nat): (r: seq<NodeId>)
    requires i < |xs|
    ensures |r| == |xs| - 1
  {
    xs[..i] + xs[i + 1..]
  }

  /** The position of a listed node: its first, and in a duplicate-free list its only, occurrence. */
  function IndexOf(xs: seq<NodeId>, n: NodeId): (i: nat)
    requires n in xs
    ensures i < |xs| && xs[i] == n && n !in xs[..i]
  {
    if xs[0] == n then 0 else 1 + IndexOf(xs[1..], n)
  }

  /** The intended invariant: the current node is the last node of the highest non-empty list, and there is none when every list is empty. */
  ghost predicate CurrentIsTop(s: Stacks) {
    match Top(s.lists)
    case None => s.current.None?
    case Some(t) => s.current == Some(Current(Last(s.lists[t]), t))
  }

  /** `AddModifier`: node `n` is appended to its priority's list and becomes current when nothing is current or the current modifier's priority is at most `p`. */
  function AddStep(s: Stacks, n: NodeId, p: int): (r: Stacks)
    ensures r.lists.Keys == s.lists.Keys + {p} && r.lists[p] == Stack(s.lists, p) + [n]
    ensures forall q | q in s.lists && q != p :: r.lists[q] == s.lists[q]
    ensures s.current.None? || s.current.value.priority <= p ==> r.current == Some(Current(n, p))
    ensures s.current.Some? && s.current.value.priority > p ==> r.current == s.current
  {
    var current := if s.current.None? || s.current.value.priority <= p then Some(Current(n, p)) else s.current;
    Stacks(s.lists[p := Stack(s.lists, p) + [n]], current)
  }

  predicate IsCurrent(s: Stacks, n: NodeId) {
    s.current.Some? && s.current.value.node == n
  }

  /** The list surgery of a removal: node `n` leaves the list of priority `p`; the current node is untouched. */
  ghost function UnlistStep(s: Stacks, n: NodeId, p: int): (r: Stacks)
    requires p in s.lists && n in s.lists[p]
    ensures r.current == s.current && r.lists.Keys == s.lists.Keys
    ensures forall q | q in s.lists && q != p :: r.lists[q] == s.lists[q]
  {
    s.(lists := s.lists[p := RemoveAt(s.lists[p], IndexOf(s.lists[p], n))])
  }

  /** The unlisted node leaves its list once, and nothing else does. */
  lemma UnlistRemovesOne(s: Stacks, n: NodeId, p: int)
    requires p in s.lists && n in s.lists[p]
    ensures multiset(UnlistStep(s, n, p).lists[p]) == multiset(s.lists[p]) - multiset{n}
  {
    var xs := s.lists[p];
    var i := IndexOf(xs, n);
    assert xs == xs[..i] + [n] + xs[i + 1..];
  }

  /**
   * `RemoveModifier` as written: removing the current node makes its predecessor
   * current, or else the last node of the highest non-empty list, chosen BEFORE
   * the node is removed.
   */
  ghost function RemoveStep(s: Stacks, n: NodeId, p: int): (r: Stacks)
    requires p in s.lists && n in s.lists[p]
    ensures r.lists == UnlistStep(s, n, p).lists
    ensures !IsCurrent(s, n) ==> r.current == s.current
    ensures IsCurrent(s, n) ==>
              r.current.Some? && r.current.value.priority in s.lists &&
              r.current.value.node in s.lists[r.current.value.priority]
  {
    var u := UnlistStep(s, n, p);
    if !IsCurrent(s, n) then u
    else u.(current := Some(NextCurrent(s.lists, p, IndexOf(s.lists[p], n))))
  }

  /**
   * The node `RemoveModifier` makes current when the `i`-th node of priority `p`
   * leaves while current: its predecessor, or else the last node of the highest
   * non-empty list of `lists`, the lists before the removal.
   */
  ghost function NextCurrent(lists: map<int, seq<NodeId>>, p: int, i: nat): (c: Current)
    requires p in lists && i < |lists[p]|
    ensures c.priority in lists && c.node in lists[c.priority]
    ensures i > 0 ==> c == Current(lists[p][i - 1], p)
    ensures i == 0 ==> IsTop(lists, c.priority) && c.node == Last(lists[c.priority])
  {
    if i > 0 then Current(lists[p][i - 1], p)
    else
      assert NonEmpty(lists, p);
      var t := Top(lists).value;
      Current(Last(lists[t]), t)
  }

  /** `RemoveModifier` with the fallback chosen after the removal: none at all when every list is then empty. */
  ghost function RemoveStepIntended(s: Stacks, n: NodeId, p: int): Stacks
    requires p in s.lists && n in s.lists[p]
  {
    var i := IndexOf(s.lists[p], n);
    var u := UnlistStep(s, n, p);
    if !IsCurrent(s, n) then u
    else if i > 0 then u.(current := Some(Current(s.lists[p][i - 1], p)))
    else
      match Top(u.lists)
      case None => u.(current := None)
      case Some(t) => u.(current := Some(Current(Last(u.lists[t]), t)))
  }

  // ---- The priority rule ----

  /** Adding a node keeps the current node on top. */
  lemma AddKeepsTop(s: Stacks, n: NodeId, p: int)
    requires CurrentIsTop(s)
    ensures CurrentIsTop(AddStep(s, n, p))
  {
    var lists := AddStep(s, n, p).lists;
    assert forall q | q in lists && q != p :: lists[q] == s.lists[q];
    match Top(s.lists)
    case None =>
      assert forall q | q in lists && q != p :: !NonEmpty(s.lists, q);
      TopIs(lists, p);
    case Some(t) =>
      if t <= p {
        TopIs(lists, p);
      } else {
        TopIs(lists, t);
      }
  }

  /** Taking out a node that is not current keeps the current node on top. */
  lemma UnlistOtherKeepsTop(s: Stacks, n: NodeId, p: int)
    requires CurrentIsTop(s) && p in s.lists && n in s.lists[p] && !IsCurrent(s, n)
    ensures CurrentIsTop(UnlistStep(s, n, p))
  {
    assert NonEmpty(s.lists, p);
    var t := Top(s.lists).value;
    var u := UnlistStep(s, n, p);
    var i := IndexOf(s.lists[p], n);
    if p == t {
      assert i < |s.lists[t]| - 1;
      assert Last(u.lists[t]) == Last(s.lists[t]);
    }
    TopIs(u.lists, t);
  }

  /** Where a current node sits: at the end of the top list, which is its own priority's. */
  lemma CurrentIsLast(s: Stacks, n: NodeId, p: int)
    requires StacksOk(s) && CurrentIsTop(s) && p in s.lists && n in s.lists[p] && IsCurrent(s, n)
    ensures Top(s.lists) == Some(p) && s.current == Some(Current(n, p))
    ensures IndexOf(s.lists[p], n) == |s.lists[p]| - 1
  {
    assert NonEmpty(s.lists, p);
    var t := Top(s.lists).value;
    var i := IndexOf(s.lists[p], n);
    assert s.lists[t][|s.lists[t]| - 1] == s.lists[p][i];
  }

  /** The intended removal keeps the current node on top. */
  lemma IntendedRemoveKeepsTop(s: Stacks, n: NodeId, p: int)
    requires StacksOk(s) && CurrentIsTop(s) && p in s.lists && n in s.lists[p]
    ensures CurrentIsTop(RemoveStepIntended(s, n, p))
  {
    if !IsCurrent(s, n) {
      UnlistOtherKeepsTop(s, n, p);
    } else {
      CurrentIsLast(s, n, p);
      var i := IndexOf(s.lists[p], n);
      if i > 0 {
        var u := UnlistStep(s, n, p);
        assert Last(u.lists[p]) == s.lists[p][i - 1];
        TopIs(u.lists, p);
      }
    }
  }

  /** Re-registering a listed node as a new node of the same priority keeps the current node on top. */
  lemma RegisterKeepsTop(s: Stacks, n: NodeId, p: int, k: NodeId)
    requires StacksOk(s) && CurrentIsTop(s) && p in s.lists && n in s.lists[p]
    ensures CurrentIsTop(AddStep(UnlistStep(s, n, p), k, p))
  {
    if !IsCurrent(s, n) {
      UnlistOtherKeepsTop(s, n, p);
      AddKeepsTop(UnlistStep(s, n, p), k, p);
    } else {
      CurrentIsLast(s, n, p);
      var lists := AddStep(UnlistStep(s, n, p), k, p).lists;
      assert forall q | q in lists && q != p :: lists[q] == s.lists[q];
      TopIs(lists, p);
    }
  }

  /**
   * The removal as written and the intended one differ exactly when the current
   * node is removed as the only member of its list.
   */
  lemma RemoveAgreesExceptSole(s: Stacks, n: NodeId, p: int)
    requires StacksOk(s) && CurrentIsTop(s) && p in s.lists && n in s.lists[p]
    ensures RemoveStep(s, n, p) == RemoveStepIntended(s, n, p) <==> !(IsCurrent(s, n) && s.lists[p] == [n])
  {
    if IsCurrent(s, n) {
      CurrentIsLast(s, n, p);
      if s.lists[p] == [n] {
        var u := UnlistStep(s, n, p);
        assert !NonEmpty(u.lists, p);
        assert RemoveStep(s, n, p).current == Some(Current(n, p));
      } else {
        assert IndexOf(s.lists[p], n) > 0;
      }
    }
  }

  /** As written, removing the current node as the only member of its list leaves it current although no list holds it. */
  lemma AsWrittenSoleStale(s: Stacks, n: NodeId, p: int)
    requires StacksOk(s) && CurrentIsTop(s) && p in s.lists && s.lists[p] == [n] && IsCurrent(s, n)
    ensures RemoveStep(s, n, p).current == Some(Current(n, p))
    ensures !CurrentIsTop(RemoveStep(s, n, p))
  {
    assert s.lists[p][0] == n;
    CurrentIsLast(s, n, p);
    assert !NonEmpty(RemoveStep(s, n, p).lists, p);
  }

  /** One modifier at normal priority, then removed: as written it stays current; intended, nothing is. */
  lemma OnlyModifierRemoved()
    ensures var s := AddStep(Stacks(map[], None), 0, NormalPriority);
      && CurrentIsTop(s)
      && RemoveStep(s, 0, NormalPriority).current == Some(Current(0, NormalPriority))
      && RemoveStepIntended(s, 0, NormalPriority).current == None
  {
    var s := AddStep(Stacks(map[], None), 0, NormalPriority);
    assert Stack(map[], NormalPriority) + [0] == [0];
    assert s.lists == map[NormalPriority := [0]];
    TopIs(s.lists, NormalPriority);
    var u := UnlistStep(s, 0, NormalPriority);
    assert u.lists == map[NormalPriority := []];
    assert forall q :: !NonEmpty(u.lists, q);
  }

  // ---- The worker and its modifiers ----

  /** The game light: what the worker last wrote to it. */
  class Light {
    var color: Color
    var intensity: Intensity
    var enabled: bool

    constructor (color: Color, intensity: Intensity, enabled: bool)
      ensures this.color == color && this.intensity == intensity && this.enabled == enabled
    {
      this.color := color;
      this.intensity := intensity;
      this.enabled := enabled;
    }
  }

  // ---- The links between nodes and modifiers, as values ----

  /**
   * The dictionary `dict`, the node values `nv` and the modifiers' `Node` fields
   * (`node[m]` is the field of modifier `m`) agree: every listed node belongs to
   * a modifier of the list's priority whose `Node` is that very node; no list
   * repeats a node; a modifier's `Node`, when set, is a listed node of that
   * modifier; node ids are below `next`.
   */
  ghost predicate Consistent(dict: map<int, seq<NodeId>>, nv: map<NodeId, LightModifier>, node: map<LightModifier, Option<NodeId>>, next: NodeId) {
    && node.Keys == nv.Values
    && (forall k | k in nv :: k < next)
    && (forall p, i | p in dict && 0 <= i < |dict[p]| ::
          && dict[p][i] in nv
          && nv[dict[p][i]].Priority == p
          && node[nv[dict[p][i]]] == Some(dict[p][i]))
    && (forall p, i, j | p in dict && 0 <= i < j < |dict[p]| :: dict[p][i] != dict[p][j])
    && (forall m | m in node && node[m].Some? ::
          && node[m].value in nv && nv[node[m].value] == m
          && m.Priority in dict && node[m].value in dict[m.Priority])
  }

  /** The modifiers of `nv` after node `k`, not yet a key, is given modifier `m`. */
  lemma ValuesAdd(nv: map<NodeId, LightModifier>, k: NodeId, m: LightModifier)
    requires k !in nv
    ensures nv[k := m].Values == nv.Values + {m}
  {
    forall x | x in nv.Values ensures x in nv[k := m].Values {
      var j :| j in nv && nv[j] == x;
      assert nv[k := m][j] == x;
    }
    assert nv[k := m][k] == m;
  }

  /** Giving a fresh node id `next` to an inactive modifier `m` keeps the structure consistent. */
  lemma AddValueKeeps(dict: map<int, seq<NodeId>>, nv: map<NodeId, LightModifier>, node: map<LightModifier, Option<NodeId>>, next: NodeId, m: LightModifier)
    requires Consistent(dict, nv, node, next)
    requires m in node ==> node[m].None?
    ensures Consistent(dict, nv[next := m], node[m := None], next + 1)
  {
    ValuesAdd(nv, next, m);
  }

  /** Appending node `n` of the inactive modifier `m` to the list of `m`'s priority keeps the structure consistent. */
  lemma ListKeeps(dict: map<int, seq<NodeId>>, nv: map<NodeId, LightModifier>, node: map<LightModifier, Option<NodeId>>, next: NodeId, m: LightModifier, n: NodeId)
    requires Consistent(dict, nv, node, next)
    requires n in nv && nv[n] == m && node[m].None?
    ensures Consistent(dict[m.Priority := Stack(dict, m.Priority) + [n]], nv, node[m := Some(n)], next)
  {
    var dict', node' := dict[m.Priority := Stack(dict, m.Priority) + [n]], node[m := Some(n)];
    forall p, i | p in dict' && 0 <= i < |dict'[p]|
      ensures dict'[p][i] in nv && nv[dict'[p][i]].Priority == p && node'[nv[dict'[p][i]]] == Some(dict'[p][i])
    {
      if p == m.Priority && i == |dict'[p]| - 1 {
      } else {
        assert dict'[p][i] == dict[p][i];
      }
    }
    forall p, i, j | p in dict' && 0 <= i < j < |dict'[p]| ensures dict'[p][i] != dict'[p][j] {
      if p == m.Priority && j == |dict'[p]| - 1 {
        assert dict'[p][i] == dict[p][i];
      } else {
        assert dict'[p][i] == dict[p][i] && dict'[p][j] == dict[p][j];
      }
    }
  }

  /** Taking the `i`-th node, the node of modifier `m`, out of its list and clearing `m`'s `Node` keeps the structure consistent. */
  lemma UnlistKeeps(dict: map<int, seq<NodeId>>, nv: map<NodeId, LightModifier>, node: map<LightModifier, Option<NodeId>>, next: NodeId, m: LightModifier, i: nat)
    requires Consistent(dict, nv, node, next)
    requires m.Priority in dict && i < |dict[m.Priority]| && nv[dict[m.Priority][i]] == m
    ensures Consistent(dict[m.Priority := RemoveAt(dict[m.Priority], i)], nv, node[m := None], next)
  {
    UnlistKeepsListed(dict, nv, node, next, m, i);
    UnlistKeepsDistinct(dict, nv, node, next, m, i);
    UnlistKeepsLinked(dict, nv, node, next, m, i);
  }

  lemma UnlistKeepsListed(dict: map<int, seq<NodeId>>, nv: map<NodeId, LightModifier>, node: map<LightModifier, Option<NodeId>>, next: NodeId, m: LightModifier, i: nat)
    requires Consistent(dict, nv, node, next)
    requires m.Priority in dict && i < |dict[m.Priority]| && nv[dict[m.Priority][i]] == m
    ensures var dict', node' := dict[m.Priority := RemoveAt(dict[m.Priority], i)], node[m := None];
      forall p, j | p in dict' && 0 <= j < |dict'[p]| ::
        dict'[p][j] in nv && nv[dict'[p][j]].Priority == p && node'[nv[dict'[p][j]]] == Some(dict'[p][j])
  {
    var p0 := m.Priority;
    var dict', node' := dict[p0 := RemoveAt(dict[p0], i)], node[m := None];
    forall p, j | p in dict' && 0 <= j < |dict'[p]|
      ensures dict'[p][j] in nv && nv[dict'[p][j]].Priority == p && node'[nv[dict'[p][j]]] == Some(dict'[p][j])
    {
      if p == p0 {
        var j0 := if j < i then j else j + 1;
        assert dict'[p][j] == dict[p][j0];
      }
    }
  }

  lemma UnlistKeepsDistinct(dict: map<int, seq<NodeId>>, nv: map<NodeId, LightModifier>, node: map<LightModifier, Option<NodeId>>, next: NodeId, m: LightModifier, i: nat)
    requires Consistent(dict, nv, node, next)
    requires m.Priority in dict && i < |dict[m.Priority]| && nv[dict[m.Priority][i]] == m
    ensures var dict' := dict[m.Priority := RemoveAt(dict[m.Priority], i)];
      forall p, j, k | p in dict' && 0 <= j < k < |dict'[p]| :: dict'[p][j] != dict'[p][k]
  {
    var p0 := m.Priority;
    var dict' := dict[p0 := RemoveAt(dict[p0], i)];
    forall p, j, k | p in dict' && 0 <= j < k < |dict'[p]| ensures dict'[p][j] != dict'[p][k] {
      if p == p0 {
        var j0, k0 := (if j < i then j else j + 1), (if k < i then k else k + 1);
        assert dict'[p][j] == dict[p][j0] && dict'[p][k] == dict[p][k0];
      }
    }
  }

  lemma UnlistKeepsLinked(dict: map<int, seq<NodeId>>, nv: map<NodeId, LightModifier>, node: map<LightModifier, Option<NodeId>>, next: NodeId, m: LightModifier, i: nat)
    requires Consistent(dict, nv, node, next)
    requires m.Priority in dict && i < |dict[m.Priority]| && nv[dict[m.Priority][i]] == m
    ensures var dict', node' := dict[m.Priority := RemoveAt(dict[m.Priority], i)], node[m := None];
      forall x | x in node' && node'[x].Some? :: node'[x].value in dict'[x.Priority]
  {
    var p0 := m.Priority;
    var dict', node' := dict[p0 := RemoveAt(dict[p0], i)], node[m := None];
    forall x | x in node' && node'[x].Some?
      ensures node'[x].value in dict'[x.Priority]
    {
      var y := node'[x].value;
      if x.Priority == p0 {
        var j :| 0 <= j < |dict[p0]| && dict[p0][j] == y;
        assert y == dict'[p0][if j < i then j else j - 1];
      }
    }
  }

  class LightWorker {
    const light: Light
    var priorityDict: map<int, seq<NodeId>>
    var currentNode: Option<NodeId>
    var nodeValue: map<NodeId, LightModifier>
    var nextNode: NodeId

    ghost function Mods(): set<LightModifier>
      reads this`nodeValue
    {
      nodeValue.Values
    }

    /** The `Node` field of each modifier. */
    ghost function Links(): (r: map<LightModifier, Option<NodeId>>)
      reads this`nodeValue, Mods()`Node
      ensures r.Keys == Mods()
    {
      map m | m in Mods() :: m.Node
    }

    function ToStacks(): Stacks
      reads this
      requires currentNode.Some? ==> currentNode.value in nodeValue
    {
      var current := if currentNode.Some? then Some(Current(currentNode.value, nodeValue[currentNode.value].Priority)) else None;
      Stacks(priorityDict, current)
    }

    /** The light shows modifier `m`. */
    ghost predicate Shows(m: LightModifier)
      reads light, m
    {
      light.color == m.color && light.intensity == m.intensity && light.enabled == m.enabled
    }

    /**
     * The list structure is consistent with the modifiers' `Node` fields (a
     * modifier is active exactly when its node is listed), and while the current
     * node is still its modifier's node the light shows that modifier.
     */
    ghost predicate Valid()
      reads this, light, Mods()
    {
      && (forall k | k in nodeValue :: nodeValue[k].worker == this)
      && Consistent(priorityDict, nodeValue, Links(), nextNode)
      && (currentNode.Some? ==> currentNode.value in nodeValue)
      && (currentNode.Some? && nodeValue[currentNode.value].Node == currentNode ==> Shows(nodeValue[currentNode.value]))
    }

    lemma ValidStacks()
      requires Valid()
      ensures StacksOk(ToStacks())
    {
    }

    /** `Valid` from its parts, with the modifiers' `Node` fields given as `node`. */
    lemma ValidFrom(node: map<LightModifier, Option<NodeId>>)
      requires Links() == node && Consistent(priorityDict, nodeValue, node, nextNode)
      requires forall k | k in nodeValue :: nodeValue[k].worker == this
      requires currentNode.Some? ==> currentNode.value in nodeValue
      requires currentNode.Some? && nodeValue[currentNode.value].Node == currentNode ==> Shows(nodeValue[currentNode.value])
      ensures Valid()
    {
    }

    /** An active modifier's node is listed under its priority and belongs to it. */
    lemma ActiveListed(m: LightModifier)
      requires Valid() && m in Mods() && m.Node.Some?
      ensures m.Node.value in nodeValue && nodeValue[m.Node.value] == m
      ensures m.Priority in priorityDict && m.Node.value in priorityDict[m.Priority]
    {
      assert Links()[m] == m.Node;
    }

    /** A modifier of this worker in use is the current node's owner, and its look is on the light. */
    lemma InUseShown(m: LightModifier)
      requires Valid() && m in Mods() && m.worker == this
      ensures m.InUse() ==> currentNode.Some? && nodeValue[currentNode.value] == m && Shows(m)
    {
      if m.InUse() {
        ActiveListed(m);
      }
    }

    /** A worker with no modifier; `light` starts as the game left it. */
    constructor (light: Light)
      ensures Valid() && this.light == light
      ensures priorityDict == map[] && currentNode == None && nodeValue == map[]
    {
      this.light := light;
      priorityDict := map[];
      currentNode := None;
      nodeValue := map[];
      nextNode := 0;
    }

    predicate IsEMPActive()
      reads this
    {
      NonEmpty(priorityDict, EMPPriority)
    }

    /** An EMP override is in force exactly when some modifier of EMP priority is active. */
    lemma EMPActiveIffActiveEMPModifier()
      requires Valid()
      ensures IsEMPActive() <==> exists m | m in Mods() :: m.Priority == EMPPriority && m.Node.Some?
    {
      if IsEMPActive() {
        var n := priorityDict[EMPPriority][0];
        assert Links()[nodeValue[n]] == Some(n);
      }
      if exists m | m in Mods() :: m.Priority == EMPPriority && m.Node.Some? {
        var m :| m in Mods() && m.Priority == EMPPriority && m.Node.Some?;
        ActiveListed(m);
      }
    }

    /** The public `AddModifier`: a new modifier with the given look and priority, registered at once. */
    method AddModifier(color: Color, intensity: Intensity, enabled: bool, priority: int) returns (m: LightModifier)
      requires Valid()
      modifies this, light
      ensures Valid() && fresh(m) && m.worker == this && m.Priority == priority
      ensures m.color == color && m.intensity == intensity && m.enabled == enabled
      ensures ToStacks() == AddStep(old(ToStacks()), old(nextNode), priority)
      ensures m.Node == Some(old(nextNode)) && nodeValue == old(nodeValue)[old(nextNode) := m]
      ensures currentNode == m.Node ==> Shows(m)
      ensures currentNode != m.Node ==> unchanged(light)
    {
      m := new LightModifier(color, intensity, enabled, priority, this);
      AddNode(m);
    }

    /** Sets the `Node` field of `m`. */
    method SetNode(m: LightModifier, v: Option<NodeId>)
      modifies m`Node
      ensures m.Node == v
      requires m in Mods()
      ensures Links() == old(Links())[m := v]
    {
      m.Node := v;
    }

    /** The private `AddModifier`: appends a new node for `m` to its priority's list; it becomes current and is applied when its priority is at least the current one's. */
    method AddNode(m: LightModifier)
      requires Valid() && m.worker == this && m.Node.None?
      modifies this, m, light
      ensures Valid()
      ensures ToStacks() == AddStep(old(ToStacks()), old(nextNode), m.Priority)
      ensures m.Node == Some(old(nextNode)) && nodeValue == old(nodeValue)[old(nextNode) := m]
      ensures m.color == old(m.color) && m.intensity == old(m.intensity) && m.enabled == old(m.enabled)
      ensures currentNode == m.Node ==> Shows(m)
      ensures currentNode != m.Node ==> unchanged(light)
    {
      var n := NewNode(m);
      Append(m, n);
      if currentNode.None? || nodeValue[currentNode.value].Priority <= m.Priority {
        MakeCurrent(n);
      }
    }

    /** A new node for `m`, not yet in any list. */
    method NewNode(m: LightModifier) returns (n: NodeId)
      requires Valid() && m.worker == this && m.Node.None?
      modifies this`nextNode, this`nodeValue
      ensures Valid()
      ensures n == old(nextNode) && nextNode == n + 1 && nodeValue == old(nodeValue)[n := m]
      ensures currentNode != Some(n)
    {
      n := nextNode;
      ghost var links := Links();
      AddValueKeeps(priorityDict, nodeValue, links, n, m);
      ValuesAdd(nodeValue, n, m);
      nextNode := nextNode + 1;
      nodeValue := nodeValue[n := m];
      assert Links() == links[m := None];
      ValidFrom(links[m := None]);
    }

    /** Appends node `n` of `m` to the list of `m`'s priority, creating the list if needed. */
    method Append(m: LightModifier, n: NodeId)
      requires Valid() && n in nodeValue && nodeValue[n] == m && m.Node.None? && currentNode != Some(n)
      modifies this`priorityDict, m`Node
      ensures Valid() && m.Node == Some(n)
      ensures priorityDict == old(priorityDict)[m.Priority := Stack(old(priorityDict), m.Priority) + [n]]
    {
      ghost var links := Links();
      assert links[m] == None;
      ListKeeps(priorityDict, nodeValue, links, nextNode, m, n);
      var stack := Stack(priorityDict, m.Priority);
      priorityDict := priorityDict[m.Priority := stack + [n]];
      SetNode(m, Some(n));
      ValidFrom(links[m := Some(n)]);
    }

    /** The list half of `Register` on an active modifier: its node leaves the list; the current node is not updated. */
    method Unlist(m: LightModifier)
      requires Valid() && m in Mods() && m.Node.Some?
      modifies this`priorityDict, m`Node
      ensures Valid() && m.Node.None? && nodeValue == old(nodeValue)
      ensures old(m.Node.value) in old(priorityDict[m.Priority])
      ensures priorityDict == old(priorityDict)[m.Priority := RemoveAt(old(priorityDict[m.Priority]), IndexOf(old(priorityDict[m.Priority]), old(m.Node.value)))]
      ensures ToStacks() == UnlistStep(old(ToStacks()), old(m.Node.value), m.Priority)
    {
      ActiveListed(m);
      var stack := priorityDict[m.Priority];
      var i := IndexOf(stack, m.Node.value);
      ghost var links := Links();
      UnlistKeeps(priorityDict, nodeValue, links, nextNode, m, i);
      priorityDict := priorityDict[m.Priority := RemoveAt(stack, i)];
      SetNode(m, None);
      ValidFrom(links[m := None]);
    }

    /** `RemoveModifier`, as written: the new current node is chosen before the node leaves its list. */
    method RemoveModifier(m: LightModifier)
      requires Valid() && m in Mods() && m.Node.Some?
      modifies this`priorityDict, this`currentNode, m`Node, light
      ensures Valid() && m.Node.None? && nodeValue == old(nodeValue)
      ensures ToStacks() == RemoveStep(old(ToStacks()), old(m.Node.value), m.Priority)
      ensures old(currentNode) != old(m.Node) ==> unchanged(light)
      ensures old(currentNode) == old(m.Node) ==> currentNode.Some? && Shows(nodeValue[currentNode.value])
    {
      ActiveListed(m);
      var p := m.Priority;
      var n := m.Node.value;
      var stack := priorityDict[p];
      var i := IndexOf(stack, n);
      if currentNode != Some(n) {
        Unlist(m);
        return;
      }
      var next := ChooseNext(p, i);
      Unlist(m);
      MakeCurrent(next);
    }

    /** The choice of the next current node in `RemoveModifier`, made on the lists before the removal. */
    method ChooseNext(p: int, i: nat) returns (next: NodeId)
      requires Valid() && p in priorityDict && i < |priorityDict[p]|
      ensures next in nodeValue && Current(next, nodeValue[next].Priority) == NextCurrent(priorityDict, p, i)
    {
      if i > 0 {
        next := priorityDict[p][i - 1];
      } else {
        assert NonEmpty(priorityDict, p) && IsTop(priorityDict, Top(priorityDict).value);
        var top :| IsTop(priorityDict, top);
        TopIs(priorityDict, top);
        next := Last(priorityDict[top]);
      }
    }

    /** `Unlist` then `AddNode`: an active modifier gets a new node on top of its priority. */
    method Relist(m: LightModifier)
      requires Valid() && m in Mods() && m.worker == this && m.Node.Some?
      modifies this, m, light
      ensures Valid() && m.Node == Some(old(nextNode)) && nodeValue == old(nodeValue)[old(nextNode) := m]
      ensures ToStacks() == AddStep(UnlistStep(old(ToStacks()), old(m.Node.value), m.Priority), old(nextNode), m.Priority)
      ensures m.color == old(m.color) && m.intensity == old(m.intensity) && m.enabled == old(m.enabled)
      ensures currentNode == m.Node ==> Shows(m)
      ensures currentNode != m.Node ==> unchanged(light)
    {
      Unlist(m);
      AddNode(m);
    }

    /** Makes node `k` current and applies its modifier to the light. */
    method MakeCurrent(k: NodeId)
      requires Valid() && k in nodeValue
      modifies this`currentNode, light
      ensures Valid() && currentNode == Some(k) && Shows(nodeValue[k])
    {
      ghost var links := Links();
      currentNode := Some(k);
      nodeValue[k].Apply();
      ValidFrom(links);
    }
  }

  class LightModifier {
    var color: Color
    var intensity: Intensity
    var enabled: bool
    const Priority: int
    var Node: Option<NodeId>
    const worker: LightWorker

    constructor (color: Color, intensity: Intensity, enabled: bool, priority: int, worker: LightWorker)
      ensures this.color == color && this.intensity == intensity && this.enabled == enabled
      ensures Priority == priority && this.worker == worker && Node.None?
    {
      this.color := color;
      this.intensity := intensity;
      this.enabled := enabled;
      Priority := priority;
      this.worker := worker;
      Node := None;
    }

    /** Registered on its worker's light; the worker reference is never null here. */
    predicate Active()
      reads this
    {
      Node.Some?
    }

    /** Active and the worker's current node. */
    predicate InUse()
      reads this, worker
    {
      Active() && worker.currentNode == Node
    }

    /** Writes this modifier's look to the light. */
    method Apply()
      modifies worker.light
      ensures worker.Shows(this)
    {
      worker.light.color := color;
      worker.light.intensity := intensity;
      worker.light.enabled := enabled;
    }

    /** The `Color` setter: a new value is stored, and written to the light when this modifier is in use. */
    method SetColor(value: Color)
      requires worker.Valid() && this in worker.Mods()
      modifies this, worker.light
      ensures worker.Valid() && color == value
      ensures intensity == old(intensity) && enabled == old(enabled) && Node == old(Node)
      ensures worker.light.color == (if old(color) != value && InUse() then value else old(worker.light.color))
      ensures old(color) == value || !InUse() ==> unchanged(worker.light)
      ensures worker.light.intensity == old(worker.light.intensity) && worker.light.enabled == old(worker.light.enabled)
    {
      if value == color {
        return;
      }
      color := value;
      if InUse() {
        worker.light.color := color;
      }
    }

    /** The `Intensity` setter. */
    method SetIntensity(value: Intensity)
      requires worker.Valid() && this in worker.Mods()
      modifies this, worker.light
      ensures worker.Valid() && intensity == value
      ensures color == old(color) && enabled == old(enabled) && Node == old(Node)
      ensures worker.light.intensity == (if old(intensity) != value && InUse() then value else old(worker.light.intensity))
      ensures old(intensity) == value || !InUse() ==> unchanged(worker.light)
      ensures worker.light.color == old(worker.light.color) && worker.light.enabled == old(worker.light.enabled)
    {
      if value == intensity {
        return;
      }
      intensity := value;
      if InUse() {
        worker.light.intensity := intensity;
      }
    }

    /** The `Enabled` setter. */
    method SetEnabled(value: bool)
      requires worker.Valid() && this in worker.Mods()
      modifies this, worker.light
      ensures worker.Valid() && enabled == value
      ensures color == old(color) && intensity == old(intensity) && Node == old(Node)
      ensures worker.light.enabled == (if old(enabled) != value && InUse() then value else old(worker.light.enabled))
      ensures old(enabled) == value || !InUse() ==> unchanged(worker.light)
      ensures worker.light.color == old(worker.light.color) && worker.light.intensity == old(worker.light.intensity)
    {
      if value == enabled {
        return;
      }
      enabled := value;
      if InUse() {
        worker.light.enabled := enabled;
      }
    }

    /** `ILightModifier.Set`: the three setters in turn; an in-use modifier's new look is on the light afterwards. */
    method Set(c: Color, i: Intensity, e: bool)
      requires worker.Valid() && this in worker.Mods()
      modifies this, worker.light
      ensures worker.Valid() && color == c && intensity == i && enabled == e && Node == old(Node)
      ensures InUse() ==> worker.Shows(this)
      ensures !InUse() ==> unchanged(worker.light)
    {
      SetColor(c);
      SetIntensity(i);
      SetEnabled(e);
    }

    /** Puts the modifier back on top of its priority: an active one first leaves its list, then a new node is added. */
    method Register() returns (ok: bool)
      requires worker.Valid() && this in worker.Mods()
      modifies this, worker, worker.light
      ensures worker.Valid() && ok && Node == Some(old(worker.nextNode))
      ensures old(Node).Some? ==>
        worker.ToStacks() == AddStep(UnlistStep(old(worker.ToStacks()), old(Node.value), Priority), old(worker.nextNode), Priority)
      ensures old(Node).None? ==> worker.ToStacks() == AddStep(old(worker.ToStacks()), old(worker.nextNode), Priority)
      ensures worker.nodeValue == old(worker.nodeValue)[old(worker.nextNode) := this] && worker.Mods() == old(worker.Mods())
      ensures color == old(color) && intensity == old(intensity) && enabled == old(enabled)
      ensures unchanged(old(worker.Mods()) - {this})
      ensures worker.currentNode == Node ==> worker.Shows(this)
      ensures worker.currentNode != Node ==> unchanged(worker.light)
    {
      ValuesAdd(worker.nodeValue, worker.nextNode, this);
      if Node.Some? {
        worker.Relist(this);
      } else {
        worker.AddNode(this);
      }
      ok := true;
    }

    /** Deactivates the modifier; an inactive one is left alone. */
    method Remove()
      requires worker.Valid() && this in worker.Mods()
      modifies this, worker, worker.light
      ensures worker.Valid() && Node.None?
      ensures old(Node).None? ==> worker.ToStacks() == old(worker.ToStacks()) && unchanged(worker.light)
      ensures old(Node).Some? ==> worker.ToStacks() == RemoveStep(old(worker.ToStacks()), old(Node.value), Priority)
      ensures old(Node).Some? && old(worker.currentNode) != old(Node) ==> unchanged(worker.light)
      ensures worker.nodeValue == old(worker.nodeValue) && worker.Mods() == old(worker.Mods())
      ensures color == old(color) && intensity == old(intensity) && enabled == old(enabled)
      ensures unchanged(old(worker.Mods()) - {this})
      ensures old(Node).Some? && old(worker.currentNode) == old(Node) ==>
                worker.currentNode.Some? && worker.Shows(old(worker.nodeValue)[worker.currentNode.value])
    {
      if !Active() {
        return;
      }
      worker.RemoveModifier(this);
    }
  }
}
