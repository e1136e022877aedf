/** Reading the tree: `json_getProperty`, and the chain of open containers while it is being built. */
module JsonLookup {
  import opened CStrings
  import opened JsonGrammar
  import opened JsonStack
  import opened JsonTree
  import opened JsonScan

  /** Slot of member number i of a container whose members start at slot c. */
  function SlotOf(c: nat, ms: seq<Member>, i: nat): nat
    requires i <= |ms|
  {
    c + SizeAll(ms[..i])
  }

  /** The sibling chain visits the members one after the other, each stored whole in its slot. */
  lemma {:induction false} SiblingChain(mem: seq<Node>, b: string, lim: int, c: nat, ms: seq<Member>, sib: int, i: nat)
    requires i < |ms| && MembersAt(mem, b, lim, c, ms, sib)
    ensures MemberAt(mem, b, lim, SlotOf(c, ms, i), ms[i], if i + 1 < |ms| then SlotOf(c, ms, i + 1) else sib)
    decreases |ms|
  {
    var init := ms[..|ms| - 1];
    if i < |init| {
      SiblingChain(mem, b, lim, c, init, c + SizeAll(init), i);
      assert init[..i] == ms[..i] && init[..i + 1] == ms[..i + 1];
    }
  }

  /** Index of the first member with the name, or the number of members. */
  function FirstNamed(ms: seq<Member>, name: string): (i: nat)
    ensures i <= |ms| && (i < |ms| ==> ms[i].name == Some(name)) && forall j | 0 <= j < i :: ms[j].name != Some(name)
  {
    if ms == [] then 0 else if ms[0].name == Some(name) then 0 else 1 + FirstNamed(ms[1..], name)
  }

  lemma {:induction false} FirstNamedIs(ms: seq<Member>, name: string, i: nat)
    requires i <= |ms| && (i < |ms| ==> ms[i].name == Some(name)) && forall j | 0 <= j < i :: ms[j].name != Some(name)
    ensures FirstNamed(ms, name) == i
  {
    if i > 0 {
      FirstNamedIs(ms[1..], name, i - 1);
    }
  }

  /** json_getProperty: the node of the first member of that name, or NULL when there is none. */
  method GetProperty(mem: array<Node>, buf: array<char>, obj: nat, property: string,
                     ghost m: Member, ghost lim: nat, ghost sib: int)
    returns (r: int)
    requires m.value.Container? && MemberAt(mem[..], buf[..], lim, obj, m, sib) && lim <= buf.Length
    requires NUL !in property
    ensures var ms := m.value.members;
            var i := FirstNamed(ms, property);
            if i == |ms| then r == NULL
            else
              && r == SlotOf(obj + 1, ms, i) && 0 <= r < mem.Length
              && MemberAt(mem[..], buf[..], lim, r, ms[i], mem[r].sibling)
  {
    ghost var ms := m.value.members;
    var sibling := mem[obj].u.child;
    ghost var i := 0;
    assert ms != [] ==> ms[..0] == [];
    while sibling != NULL
      invariant i <= |ms|
      invariant sibling == if i < |ms| then SlotOf(obj + 1, ms, i) else NULL
      invariant forall j | 0 <= j < i :: ms[j].name != Some(property)
      decreases |ms| - i
    {
      SiblingChain(mem[..], buf[..], lim, obj + 1, ms, NULL, i);
      if mem[sibling].name != NULL {
        var order := StrCmp(property, buf, mem[sibling].name, ms[i].name.value);
        if order == 0 {
          FirstNamedIs(ms, property, i);
          return sibling;
        }
      }
      sibling := mem[sibling].sibling;
      i := i + 1;
    }
    FirstNamedIs(ms, property, i);
    r := NULL;
  }

  /** The slots reached from k by following sibling pointers, at most n of them. */
  ghost function Ancestors(mem: seq<Node>, k: int, n: nat): seq<int>
    decreases n
  {
    if n == 0 || k < 0 || k >= |mem| then [] else [k] + Ancestors(mem, mem[k].sibling, n - 1)
  }

  ghost function OpenSlots(stack: seq<Frame>): (r: seq<int>)
    ensures |r| == |stack|
  {
    if stack == [] then [] else [TopAt(stack)] + OpenSlots(Pop(stack))
  }

  /**
    While parsing, the sibling pointers from the innermost open container lead through exactly the open ones,
    to the root.
   */
  lemma {:induction false} OpenChain(mem: seq<Node>, b: string, lim: int, stack: seq<Frame>, open: bool, n: nat)
    requires stack != [] && StackAt(mem, b, lim, stack, open) && n >= |stack|
    ensures Ancestors(mem, TopAt(stack), n) == OpenSlots(stack)
    ensures OpenSlots(stack)[|stack| - 1..] == [0]
    decreases |stack|
  {
    if |stack| > 1 {
      OpenChain(mem, b, lim, Pop(stack), true, n - 1);
    } else {
      assert Pop(stack) == [];
      assert Ancestors(mem, NULL, n - 1) == [];
    }
  }
}
