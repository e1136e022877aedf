/**
  How the pool of `json_t` records stores a tree, and why the parser's few writes keep it stored.

  The pool hands out slots in the order members are met, so a member whose value needs n slots
  occupies n consecutive ones, its own first. Pointers into the pool are indices.
 */
module JsonTree {
  import opened CStrings
  import opened JsonGrammar
  import opened JsonStack

  /** The union in `json_t`: the text of a scalar, or the children of a container. */
  datatype Union = Text(value: int) | Children(child: int, lastChild: int)

  datatype Node = Node(sibling: int, name: int, u: Union, kind: Kind)

  /** The buffer as it will be once the bracket at the cursor, if there is one, has been closed. */
  ghost function Sealed(b: string, p: nat): string {
    if p < |b| && IsBracket(b[p]) then b[p := NUL] else b
  }

  ghost function SealedLim(b: string, p: nat): nat {
    if p < |b| && IsBracket(b[p]) then p + 1 else p
  }

  ghost predicate NameAt(b: string, lim: int, ptr: int, name: Option<string>) {
    if name.None? then ptr == NULL else StrAt(b, lim, ptr, name.value)
  }

  /** The header of a container at index k with the given first and last child. */
  ghost predicate ContainerNode(n: Node, isObj: bool, child: int, lastChild: int) {
    && n.kind == (if isObj then OBJ else ARRAY)
    && n.u.Children?
    && n.u.child == child
    && (child != NULL ==> n.u.lastChild == lastChild)
  }

  /** Index of the last of the members stored from index k on; NULL when there is none. */
  function LastAt(k: nat, ms: seq<Member>): int {
    if ms == [] then NULL else k + SizeAll(ms[..|ms| - 1])
  }

  function FirstAt(k: nat, ms: seq<Member>): int {
    if ms == [] then NULL else k
  }

  /** The slots from k on store member m, and its sibling pointer is `sib`. */
  ghost predicate MemberAt(mem: seq<Node>, b: string, lim: int, k: nat, m: Member, sib: int)
    decreases Size(m.value), 0
  {
    && k + Size(m.value) <= |mem|
    && mem[k].sibling == sib
    && NameAt(b, lim, mem[k].name, m.name)
    && match m.value
       case Scalar(kind, s) => mem[k].kind == kind && mem[k].u.Text? && StrAt(b, lim, mem[k].u.value, s)
       case Container(isObj, ms) =>
         && ContainerNode(mem[k], isObj, FirstAt(k + 1, ms), LastAt(k + 1, ms))
         && MembersAt(mem, b, lim, k + 1, ms, NULL)
  }

  /** The slots from k on store the members ms, chained by sibling pointers; the last one points to `sib`. */
  ghost predicate MembersAt(mem: seq<Node>, b: string, lim: int, k: nat, ms: seq<Member>, sib: int)
    decreases SizeAll(ms), 1
  {
    ms == [] ||
    var init, last := ms[..|ms| - 1], ms[|ms| - 1];
    var at := k + SizeAll(init);
    MembersAt(mem, b, lim, k, init, at) && MemberAt(mem, b, lim, at, last, sib)
  }

  /** The slots from k on store an open container; `open` says that a member of it is open too. */
  ghost predicate OpenAt(mem: seq<Node>, b: string, lim: int, k: nat, f: Frame, parent: int, open: bool) {
    var next := k + 1 + SizeAll(f.done);
    && next <= |mem|
    && mem[k].sibling == parent
    && NameAt(b, lim, mem[k].name, f.name)
    && (if open then ContainerNode(mem[k], f.isObj, k + 1, next)
        else ContainerNode(mem[k], f.isObj, FirstAt(k + 1, f.done), LastAt(k + 1, f.done)))
    && MembersAt(mem, b, lim, k + 1, f.done, if open then next else NULL)
  }

  /** The slot of the innermost open container. */
  function TopAt(stack: seq<Frame>): nat
    requires stack != []
  {
    StackSize(Pop(stack))
  }

  function ParentAt(stack: seq<Frame>): int
    requires stack != []
  {
    if |stack| == 1 then NULL else TopAt(Pop(stack))
  }

  /**
    The pool stores the whole stack; `open` says that a slot for a further member of the
    innermost container is already linked in. The sibling pointer of an open container holds its parent,
    so following it from the innermost one visits exactly the open containers, out to the root.
   */
  ghost predicate StackAt(mem: seq<Node>, b: string, lim: int, stack: seq<Frame>, open: bool)
    requires stack != []
    decreases |stack|
  {
    && (|stack| > 1 ==> StackAt(mem, b, lim, Pop(stack), true))
    && OpenAt(mem, b, lim, TopAt(stack), Top(stack), ParentAt(stack), open)
  }

  // ---- writes outside a tree leave it stored ----

  ghost predicate SameSlots(mem: seq<Node>, mem': seq<Node>, lo: nat, hi: nat) {
    hi <= |mem'| && hi <= |mem| && forall i | lo <= i < hi :: mem'[i] == mem[i]
  }

  ghost predicate SameText(b: string, b': string, lim: int, lim': int) {
    lim <= lim' <= |b'| && lim <= |b| && forall i | 0 <= i < lim :: b'[i] == b[i]
  }

  lemma {:induction false} MemberStable(mem: seq<Node>, mem': seq<Node>, b: string, b': string, lim: int, lim': int,
                                        k: nat, m: Member, sib: int, sib': int)
    requires MemberAt(mem, b, lim, k, m, sib)
    requires SameSlots(mem, mem', k + 1, k + Size(m.value)) && k < |mem'|
    requires mem'[k] == mem[k].(sibling := sib')
    requires SameText(b, b', lim, lim')
    ensures MemberAt(mem', b', lim', k, m, sib')
    decreases Size(m.value), 0
  {
    if m.name.Some? {
      StrAtStable(b, b', lim, lim', mem[k].name, m.name.value);
    }
    match m.value
    case Scalar(kind, s) => StrAtStable(b, b', lim, lim', mem[k].u.value, s);
    case Container(isObj, ms) => MembersStable(mem, mem', b, b', lim, lim', k + 1, ms, NULL);
  }

  lemma {:induction false} MembersStable(mem: seq<Node>, mem': seq<Node>, b: string, b': string, lim: int, lim': int,
                                         k: nat, ms: seq<Member>, sib: int)
    requires MembersAt(mem, b, lim, k, ms, sib)
    requires SameSlots(mem, mem', k, k + SizeAll(ms))
    requires SameText(b, b', lim, lim')
    ensures MembersAt(mem', b', lim', k, ms, sib)
    decreases SizeAll(ms), 1
  {
    if ms != [] {
      var init, last := ms[..|ms| - 1], ms[|ms| - 1];
      var at := k + SizeAll(init);
      MembersStable(mem, mem', b, b', lim, lim', k, init, at);
      MemberStable(mem, mem', b, b', lim, lim', at, last, sib, sib);
    }
  }

  lemma OpenStable(mem: seq<Node>, mem': seq<Node>, b: string, b': string, lim: int, lim': int,
                   k: nat, f: Frame, parent: int, open: bool)
    requires OpenAt(mem, b, lim, k, f, parent, open)
    requires SameSlots(mem, mem', k, k + 1 + SizeAll(f.done))
    requires SameText(b, b', lim, lim')
    ensures OpenAt(mem', b', lim', k, f, parent, open)
  {
    if f.name.Some? {
      StrAtStable(b, b', lim, lim', mem[k].name, f.name.value);
    }
    MembersStable(mem, mem', b, b', lim, lim', k + 1, f.done, if open then k + 1 + SizeAll(f.done) else NULL);
  }

  lemma {:induction false} StackStable(mem: seq<Node>, mem': seq<Node>, b: string, b': string, lim: int, lim': int,
                                       stack: seq<Frame>, open: bool)
    requires stack != [] && StackAt(mem, b, lim, stack, open)
    requires SameSlots(mem, mem', 0, StackSize(stack))
    requires SameText(b, b', lim, lim')
    ensures StackAt(mem', b', lim', stack, open)
    decreases |stack|
  {
    if |stack| > 1 {
      StackStable(mem, mem', b, b', lim, lim', Pop(stack), true);
    }
    OpenStable(mem, mem', b, b', lim, lim', TopAt(stack), Top(stack), ParentAt(stack), open);
  }

  // ---- the parser's writes ----

  /** The pool after `add(obj, property)`. */
  function AddChild(mem: seq<Node>, obj: nat, property: nat): (r: seq<Node>)
    requires obj < |mem| && property < |mem| && mem[obj].u.Children?
    requires mem[obj].u.child != NULL ==> 0 <= mem[obj].u.lastChild < |mem|
    ensures |r| == |mem|
  {
    var m1 := mem[property := mem[property].(sibling := NULL)];
    if mem[obj].u.child == NULL then m1[obj := m1[obj].(u := Children(property, property))]
    else
      var last := mem[obj].u.lastChild;
      var m2 := m1[last := m1[last].(sibling := property)];
      m2[obj := m2[obj].(u := Children(mem[obj].u.child, property))]
  }

  /** Re-pointing the last of a chain of members to `sib`. */
  lemma RelinkLast(mem: seq<Node>, mem': seq<Node>, b: string, lim: int, k: nat, ms: seq<Member>, sib: int)
    requires ms != [] && MembersAt(mem, b, lim, k, ms, NULL)
    requires k + SizeAll(ms) <= |mem| == |mem'|
    requires lim <= |b|
    requires var last := LastAt(k, ms);
             forall i | k <= i < k + SizeAll(ms) :: mem'[i] == if i == last then mem[i].(sibling := sib) else mem[i]
    ensures MembersAt(mem', b, lim, k, ms, sib)
  {
    var init, last := ms[..|ms| - 1], ms[|ms| - 1];
    var at := k + SizeAll(init);
    MembersStable(mem, mem', b, b, lim, lim, k, init, at);
    MemberStable(mem, mem', b, b, lim, lim, at, last, NULL, sib);
  }

  lemma AddKeepsStack(mem: seq<Node>, b: string, lim: int, stack: seq<Frame>)
    requires stack != [] && StackAt(mem, b, lim, stack, false)
    requires StackSize(stack) < |mem| && lim <= |b|
    ensures var obj := TopAt(stack);
            && obj < |mem| && mem[obj].u.Children?
            && (mem[obj].u.child != NULL ==> 0 <= mem[obj].u.lastChild < |mem|)
            && StackAt(AddChild(mem, obj, StackSize(stack)), b, lim, stack, true)
  {
    var obj, property, done := TopAt(stack), StackSize(stack), Top(stack).done;
    var mem' := AddChild(mem, obj, property);
    if |stack| > 1 {
      StackStable(mem, mem', b, b, lim, lim, Pop(stack), true);
    }
    if done != [] {
      RelinkLast(mem, mem', b, lim, obj + 1, done, property);
    }
  }

  /** The slot linked in by `add`, once it stores a whole member, makes it the last member of the container. */
  lemma FillSlot(mem: seq<Node>, b: string, lim: int, stack: seq<Frame>, m: Member)
    requires stack != [] && StackAt(mem, b, lim, stack, true)
    requires MemberAt(mem, b, lim, StackSize(stack), m, NULL)
    ensures StackAt(mem, b, lim, Extend(stack, m), false)
  {
    var top, r := Top(stack), Extend(stack, m);
    SizeAllAppend(top.done, m);
    assert Pop(r) == Pop(stack);
    assert Top(r).done == top.done + [m];
    assert (top.done + [m])[..|top.done|] == top.done;
  }

  /** Closing the innermost container, when it is not the root. */
  lemma CloseKeepsStack(mem: seq<Node>, b: string, lim: int, stack: seq<Frame>)
    requires |stack| > 1 && StackAt(mem, b, lim, stack, false)
    requires lim <= |b|
    ensures var obj := TopAt(stack);
            && obj < |mem|
            && StackAt(mem[obj := mem[obj].(sibling := NULL)], b, lim, Extend(Pop(stack), AsMember(Top(stack))), false)
  {
    var obj, top := TopAt(stack), Top(stack);
    var mem' := mem[obj := mem[obj].(sibling := NULL)];
    StackStable(mem, mem', b, b, lim, lim, Pop(stack), true);
    MembersStable(mem, mem', b, b, lim, lim, obj + 1, top.done, NULL);
    FillSlot(mem', b, lim, Pop(stack), AsMember(top));
  }

  /** A fresh container in the slot linked in by `add`. */
  lemma OpenKeepsStack(mem: seq<Node>, b: string, lim: int, stack: seq<Frame>, f: Frame)
    requires stack != [] && StackAt(mem, b, lim, stack, true)
    requires f.done == [] && OpenAt(mem, b, lim, StackSize(stack), f, TopAt(stack), false)
    ensures StackAt(mem, b, lim, stack + [f], false)
  {
    assert Pop(stack + [f]) == stack;
  }
}
