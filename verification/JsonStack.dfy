/**
  The recursive grammar read with an explicit stack of open containers.

  `Resume` says what document results from reading on at index `i` when the containers on the
  stack are open. Each step the parser's single loop can take keeps it unchanged, so whatever
  the loop ends with is what the recursive grammar gives.
 */
module JsonStack {
  import opened CStrings
  import opened JsonGrammar

  /** An open container: its own name, its kind and the members read so far. */
  datatype Frame = Frame(name: Option<string>, isObj: bool, done: seq<Member>)

  function Top(stack: seq<Frame>): Frame
    requires stack != []
  {
    stack[|stack| - 1]
  }

  function Pop(stack: seq<Frame>): seq<Frame>
    requires stack != []
  {
    stack[..|stack| - 1]
  }

  /** Adds a finished member to the innermost open container. */
  function Extend(stack: seq<Frame>, m: Member): (r: seq<Frame>)
    requires stack != []
    ensures |r| == |stack|
  {
    var top := Top(stack);
    Pop(stack) + [Frame(top.name, top.isObj, top.done + [m])]
  }

  function AsMember(f: Frame): Member {
    Member(f.name, Container(f.isObj, f.done))
  }

  function Resume(t: string, i: nat, stack: seq<Frame>): (r: Parse<Value>)
    requires stack != []
    decreases |stack|
  {
    var top := Top(stack);
    var (ms, n) :- Members(t, i, top.isObj);
    var whole := Frame(top.name, top.isObj, top.done + ms);
    if |stack| == 1 then Parsed(AsMember(whole).value, n)
    else Resume(t, n, Extend(Pop(stack), AsMember(whole)))
  }

  /** Pool slots taken by the containers on the stack and all they hold. */
  function StackSize(stack: seq<Frame>): nat {
    if stack == [] then 0 else StackSize(Pop(stack)) + 1 + SizeAll(Top(stack).done)
  }

  lemma {:induction false} SkipSeparatorsStep(t: string, i: nat)
    ensures SkipBlanks(t, i).None? ==> SkipSeparators(t, i).None?
    ensures SkipBlanks(t, i).Some? ==>
              var p := SkipBlanks(t, i).value;
              SkipSeparators(t, i) == if t[p] == ',' then SkipSeparators(t, p + 1) else Some(p)
    decreases |t| - i
  {
    if At(t, i) != NUL && IsBlank(t[i]) {
      SkipSeparatorsStep(t, i + 1);
    }
  }

  /** Reading on from `i` or from `j` is the same when only separators lie between. */
  lemma SameRest(t: string, i: nat, j: nat, stack: seq<Frame>)
    requires stack != []
    requires SkipSeparators(t, i) == SkipSeparators(t, j)
    ensures Resume(t, i, stack) == Resume(t, j, stack)
  {
    assert Members(t, i, Top(stack).isObj) == Members(t, j, Top(stack).isObj);
  }

  /** The loop's step at a closing bracket. */
  lemma CloseStep(t: string, i: nat, stack: seq<Frame>)
    requires stack != []
    requires SkipSeparators(t, i) == Some(i) && t[i] == Close(Top(stack).isObj)
    ensures |stack| == 1 ==> Resume(t, i, stack) == Parsed(AsMember(Top(stack)).value, i + 1)
    ensures |stack| > 1 ==> Resume(t, i, stack) == Resume(t, i + 1, Extend(Pop(stack), AsMember(Top(stack))))
  {
    assert Top(stack).done + [] == Top(stack).done;
  }

  /** The loop's step over a member whose value is read whole. */
  lemma MemberStep(t: string, i: nat, stack: seq<Frame>)
    requires stack != []
    requires SkipSeparators(t, i) == Some(i) && t[i] != Close(Top(stack).isObj)
    ensures var name := MemberName(t, i, Top(stack).isObj);
            if name.NoParse? then Resume(t, i, stack).NoParse?
            else
              var value := ParseValue(t, name.next);
              if value.NoParse? then Resume(t, i, stack).NoParse?
              else Resume(t, i, stack) == Resume(t, value.next, Extend(stack, Member(name.value, value.value)))
  {
    var top := Top(stack);
    var name := MemberName(t, i, top.isObj);
    if name.Parsed? {
      var value := ParseValue(t, name.next);
      if value.Parsed? {
        var m := Member(name.value, value.value);
        var rest := Members(t, value.next, top.isObj);
        if rest.Parsed? {
          assert top.done + ([m] + rest.value) == (top.done + [m]) + rest.value;
          assert Pop(Extend(stack, m)) == Pop(stack);
        }
      }
    }
  }

  /** The loop's step into a nested container: reading its members first, with it on the stack, is the same. */
  lemma OpenStep(t: string, i: nat, stack: seq<Frame>, name: Option<string>, isObj: bool, v: nat)
    requires stack != []
    requires SkipSeparators(t, i) == Some(i) && t[i] != Close(Top(stack).isObj)
    requires MemberName(t, i, Top(stack).isObj) == Parsed(name, v)
    requires t[v] == if isObj then '{' else '['
    ensures Resume(t, i, stack) == Resume(t, v + 1, stack + [Frame(name, isObj, [])])
  {
    var inner := stack + [Frame(name, isObj, [])];
    assert Top(inner) == Frame(name, isObj, []) && Pop(inner) == stack;
    MemberStep(t, i, stack);
    var ms := Members(t, v + 1, isObj);
    if ms.Parsed? {
      assert [] + ms.value == ms.value;
    }
  }

  lemma {:induction false} StackSizeExtend(stack: seq<Frame>, m: Member)
    requires stack != []
    ensures StackSize(Extend(stack, m)) == StackSize(stack) + Size(m.value)
  {
    SizeAllAppend(Top(stack).done, m);
    assert Pop(Extend(stack, m)) == Pop(stack);
  }

  lemma StackSizePush(stack: seq<Frame>, f: Frame)
    ensures StackSize(stack + [f]) == StackSize(stack) + 1 + SizeAll(f.done)
  {
    assert Pop(stack + [f]) == stack;
  }

  /** The finished document holds at least what is on the stack already. */
  lemma {:induction false} ResumeSize(t: string, i: nat, stack: seq<Frame>)
    requires stack != [] && Resume(t, i, stack).Parsed?
    ensures Size(Resume(t, i, stack).value) >= StackSize(stack)
    decreases |stack|
  {
    var top := Top(stack);
    var ms := Members(t, i, top.isObj);
    var whole := Frame(top.name, top.isObj, top.done + ms.value);
    SizeAllConcat(top.done, ms.value);
    if |stack| > 1 {
      StackSizeExtend(Pop(stack), AsMember(whole));
      ResumeSize(t, ms.next, Extend(Pop(stack), AsMember(whole)));
    }
  }

  /** Before a further member, at least one more slot is needed. */
  lemma OneMoreSlot(t: string, i: nat, stack: seq<Frame>)
    requires stack != [] && Resume(t, i, stack).Parsed?
    requires SkipSeparators(t, i) == Some(i) && t[i] != Close(Top(stack).isObj)
    ensures Size(Resume(t, i, stack).value) >= StackSize(stack) + 1
  {
    MemberStep(t, i, stack);
    var name := MemberName(t, i, Top(stack).isObj);
    var value := ParseValue(t, name.next);
    var m := Member(name.value, value.value);
    StackSizeExtend(stack, m);
    ResumeSize(t, value.next, Extend(stack, m));
  }

  /** What the loop starts from. */
  lemma DocumentStart(t: string, p: nat)
    requires SkipBlanks(t, 0) == Some(p) && t[p] == '{'
    ensures Document(t) == Resume(t, p + 1, [Frame(None, true, [])])
  {
    var ms := Members(t, p + 1, true);
    if ms.Parsed? {
      assert [] + ms.value == ms.value;
    }
  }
}
