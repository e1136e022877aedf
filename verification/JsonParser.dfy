/**
  The parser proper: the pool, `add`, the loop of `objValue`, `json_create` and `json_getProperty`.

  `ReadsOn` is what the loop keeps: reading the unread text with the containers now open gives the whole
  document, and the pool stores exactly those containers and what they hold so far.
 */
module JsonParser {
  import opened CStrings
  import opened JsonGrammar
  import opened JsonStack
  import opened JsonTree
  import opened JsonScan

  /** jsonPool_t */
  class JsonPool {
    const mem: array<Node>
    const qty: nat
    var nextFree: nat

    ghost predicate Valid()
      reads this
    {
      1 <= nextFree <= qty <= mem.Length
    }

    /** poolInit; slot 0 is the root. */
    constructor (mem: array<Node>, qty: nat)
      requires 1 <= qty <= mem.Length
      ensures this.mem == mem && this.qty == qty && nextFree == 1 && Valid()
    {
      this.mem := mem;
      this.qty := qty;
      nextFree := 1;
    }

    /** poolNew */
    method New() returns (k: int)
      requires Valid()
      modifies this
      ensures Valid()
      ensures if old(nextFree) < qty then k == old(nextFree) && nextFree == k + 1
              else k == NULL && nextFree == old(nextFree)
    {
      if nextFree >= qty {
        return NULL;
      }
      k := nextFree;
      nextFree := nextFree + 1;
    }
  }

  /** add */
  method Add(mem: array<Node>, obj: nat, property: nat)
    requires obj < mem.Length && property < mem.Length && mem[obj].u.Children?
    requires mem[obj].u.child != NULL ==> 0 <= mem[obj].u.lastChild < mem.Length
    modifies mem
    ensures mem[..] == AddChild(old(mem[..]), obj, property)
  {
    mem[property] := mem[property].(sibling := NULL);
    if mem[obj].u.child == NULL {
      mem[obj] := mem[obj].(u := Children(property, mem[obj].u.lastChild));
      mem[obj] := mem[obj].(u := Children(mem[obj].u.child, property));
    } else {
      var last := mem[obj].u.lastChild;
      mem[last] := mem[last].(sibling := property);
      mem[obj] := mem[obj].(u := Children(mem[obj].u.child, property));
    }
  }

  /** propertyName: stores where the name starts, decodes it, and returns the index of the value. */
  method PropertyName(buf: array<char>, ghost t: string, p: nat, mem: array<Node>, property: nat) returns (r: int)
    requires Unread(buf[..], t, p) && At(t, p) == '\"' && property < mem.Length
    modifies buf, mem
    ensures Name(t, p).NoParse? ==> r == NULL
    ensures Name(t, p).Parsed? ==>
              && r == Name(t, p).next
              && Unread(buf[..], t, r)
              && SameText(old(buf[..]), buf[..], p, p)
              && StrAt(buf[..], r, p + 1, Name(t, p).value)
    ensures mem[..] == old(mem[..])[property := old(mem[property]).(name := p + 1)]
  {
    mem[property] := mem[property].(name := p + 1);
    r := ParseString(buf, t, p + 1);
    if r == NULL {
      return;
    }
    r := GoBlank(buf, t, r);
    if r == NULL {
      return;
    }
    if buf[r] != ':' {
      return NULL;
    }
    r := GoBlank(buf, t, r + 1);
  }

  /** textValue and the readers of primitives, by the first character of the value. */
  method ReadScalar(buf: array<char>, ghost t: string, p: nat, mem: array<Node>, property: nat) returns (r: int)
    requires Unread(buf[..], t, p) && p < |t| && property < mem.Length && mem[property].u == Text(p)
    modifies buf, mem
    ensures ScalarValue(t, p).NoParse? ==> r == NULL
    ensures ScalarValue(t, p).Parsed? ==>
              && mem[..] == old(mem[..])[property := mem[property]]
              && mem[property].u.Text?
              && mem[property] == old(mem[property]).(u := mem[property].u, kind := ScalarValue(t, p).value.kind)
              && ScalarRead(old(buf[..]), buf[..], t, p, mem[property].u.value, r, ScalarValue(t, p))
  {
    var kind: Kind;
    match buf[p] {
      case '\"' =>
        mem[property] := mem[property].(u := Text(mem[property].u.value + 1));
        r := ParseString(buf, t, p + 1);
        kind := TEXT;
      case 't' =>
        r := PrimitiveValue(buf, t, p, "true", BOOLEAN);
        kind := BOOLEAN;
      case 'f' =>
        r := PrimitiveValue(buf, t, p, "false", BOOLEAN);
        kind := BOOLEAN;
      case 'n' =>
        r := PrimitiveValue(buf, t, p, "null", NUL_KIND);
        kind := NUL_KIND;
      case _ =>
        r, kind := NumValue(buf, t, p);
    }
    if r != NULL {
      mem[property] := mem[property].(kind := kind);
    }
  }

  // ---- the loop of objValue ----

  /** What the loop keeps. `whole` is what the document reads as. */
  ghost predicate ReadsOn(b: string, mem: seq<Node>, t: string, p: nat, obj: int, nextFree: nat,
                          stack: seq<Frame>, whole: Parse<Value>)
  {
    && stack != [] && stack[0].name.None?
    && Unread(b, t, p)
    && obj == TopAt(stack)
    && nextFree == StackSize(stack) <= |mem|
    && whole == Resume(t, p, stack)
    && StackAt(mem, Sealed(b, p), SealedLim(b, p), stack, false)
  }

  /** What is stored below the cursor stays so when the cursor moves, unless it skips a bracket. */
  lemma SealedAdvance(b: string, b': string, p: nat, p': nat)
    requires p <= p' < |b'| == |b|
    requires SameText(b, b', p, p)
    requires (p' == p && b' == b) || !IsBracket(b[p])
    ensures SameText(Sealed(b, p), Sealed(b', p'), SealedLim(b, p), SealedLim(b', p'))
  {
  }

  /** Blanks and a comma leave everything as it was. */
  lemma SkipKeeps(b: string, mem: seq<Node>, t: string, p: nat, q: nat, obj: int, nextFree: nat,
                  stack: seq<Frame>, whole: Parse<Value>)
    requires ReadsOn(b, mem, t, p, obj, nextFree, stack, whole)
    requires p <= q <= |t| && SkipSeparators(t, p) == SkipSeparators(t, q)
    requires q == p || !IsBracket(t[p])
    ensures ReadsOn(b, mem, t, q, obj, nextFree, stack, whole)
  {
    SameRest(t, p, q, stack);
    SealedAdvance(b, b, p, q);
    StackStable(mem, mem, Sealed(b, p), Sealed(b, q), SealedLim(b, p), SealedLim(b, q), stack, false);
  }

  /** The start of a turn: blanks, and then maybe a comma. */
  lemma BlanksKeep(b: string, mem: seq<Node>, t: string, p: nat, obj: nat, nextFree: nat,
                   stack: seq<Frame>, whole: Parse<Value>)
    requires ReadsOn(b, mem, t, p, obj, nextFree, stack, whole)
    ensures obj < |mem| && (mem[obj].kind == if Top(stack).isObj then OBJ else ARRAY)
    ensures var q := SkipBlanks(t, p);
            if q.None? then whole.NoParse?
            else if t[q.value] == ',' then ReadsOn(b, mem, t, q.value + 1, obj, nextFree, stack, whole)
            else ReadsOn(b, mem, t, q.value, obj, nextFree, stack, whole) && SkipSeparators(t, q.value) == Some(q.value)
  {
    SkipSeparatorsStep(t, p);
    var q := SkipBlanks(t, p);
    if q.Some? {
      SkipKeeps(b, mem, t, p, if t[q.value] == ',' then q.value + 1 else q.value, obj, nextFree, stack, whole);
    }
  }

  /** The branch of the loop at a closing bracket; `parent` is NULL when the root was closed. */
  method CloseContainer(buf: array<char>, ghost t: string, p: nat, obj: nat, mem: array<Node>, ghost nextFree: nat,
                        ghost stack: seq<Frame>, ghost whole: Parse<Value>)
    returns (parent: int, ghost stack': seq<Frame>)
    requires ReadsOn(buf[..], mem[..], t, p, obj, nextFree, stack, whole)
    requires SkipSeparators(t, p) == Some(p) && t[p] == Close(Top(stack).isObj)
    modifies buf, mem
    ensures parent == NULL ==> |stack| == 1 && whole == Parsed(AsMember(Top(stack)).value, p + 1)
    ensures parent == NULL ==> Unread(buf[..], t, p + 1) && nextFree == Size(whole.value)
    ensures parent == NULL ==>
              MemberAt(mem[..], buf[..], p + 1, 0, Member(None, whole.value), NULL)
    ensures parent != NULL ==> ReadsOn(buf[..], mem[..], t, p + 1, parent, nextFree, stack', whole)
  {
    ghost var b, m := buf[..], mem[..];
    CloseKeeps(b, m, t, p, obj, nextFree, stack, whole);
    buf[p] := NUL;
    parent := mem[obj].sibling;
    stack' := stack;
    if parent != NULL {
      mem[obj] := mem[obj].(sibling := NULL);
      stack' := Extend(Pop(stack), AsMember(Top(stack)));
    }
    assert buf[..] == b[p := NUL];
  }

  lemma CloseKeeps(b: string, m: seq<Node>, t: string, p: nat, obj: nat, nextFree: nat,
                   stack: seq<Frame>, whole: Parse<Value>)
    requires ReadsOn(b, m, t, p, obj, nextFree, stack, whole)
    requires SkipSeparators(t, p) == Some(p) && t[p] == Close(Top(stack).isObj)
    ensures p < |b| && obj < |m|
    ensures m[obj].sibling == NULL <==> |stack| == 1
    ensures var b', top := b[p := NUL], AsMember(Top(stack));
            if |stack| == 1 then
              && whole == Parsed(top.value, p + 1) && Unread(b', t, p + 1) && nextFree == Size(whole.value)
              && MemberAt(m, b', p + 1, 0, top, NULL)
            else
              ReadsOn(b', m[obj := m[obj].(sibling := NULL)], t, p + 1, m[obj].sibling, nextFree,
                      Extend(Pop(stack), top), whole)
  {
    assert Sealed(b, p) == b[p := NUL] && SealedLim(b, p) == p + 1;
    CloseStep(t, p, stack);
    CloseReads(b, t, p);
    if |stack| > 1 {
      CloseInner(b[p := NUL], m, p, stack);
      CloseStored(b[p := NUL], m, p, stack);
    } else {
      CloseRoot(b[p := NUL], m, p + 1, stack);
    }
  }

  lemma CloseReads(b: string, t: string, p: nat)
    requires Unread(b, t, p) && p < |t|
    ensures Unread(b[p := NUL], t, p + 1)
  {
  }

  lemma CloseRoot(b': string, m: seq<Node>, lim: nat, stack: seq<Frame>)
    requires |stack| == 1 && stack[0].name.None? && StackAt(m, b', lim, stack, false)
    ensures TopAt(stack) == 0 < |m| && m[0].sibling == NULL && MemberAt(m, b', lim, 0, AsMember(Top(stack)), NULL)
    ensures StackSize(stack) == Size(AsMember(Top(stack)).value)
  {
  }

  /** A container inside another: where its parent is, and that the slots in use stay the same. */
  lemma CloseInner(b': string, m: seq<Node>, p: nat, stack: seq<Frame>)
    requires |stack| > 1 && StackAt(m, b', p + 1, stack, false)
    ensures var stack' := Extend(Pop(stack), AsMember(Top(stack)));
            && TopAt(stack) < |m| && m[TopAt(stack)].sibling == TopAt(stack') && StackSize(stack') == StackSize(stack)
            && stack' != [] && stack'[0].name == stack[0].name
  {
    StackSizeExtend(Pop(stack), AsMember(Top(stack)));
    assert Pop(Extend(Pop(stack), AsMember(Top(stack)))) == Pop(Pop(stack));
  }

  lemma CloseStored(b': string, m: seq<Node>, p: nat, stack: seq<Frame>)
    requires |stack| > 1 && StackAt(m, b', p + 1, stack, false) && p + 1 < |b'|
    ensures var obj, stack' := TopAt(stack), Extend(Pop(stack), AsMember(Top(stack)));
            && obj < |m|
            && StackAt(m[obj := m[obj].(sibling := NULL)], Sealed(b', p + 1), SealedLim(b', p + 1), stack', false)
  {
    var stack' := Extend(Pop(stack), AsMember(Top(stack)));
    CloseKeepsStack(m, b', p + 1, stack);
    SealNext(m[TopAt(stack) := m[TopAt(stack)].(sibling := NULL)], b', p + 1, stack');
  }

  /** Sealing the bracket at the cursor, which lies after all that is stored, changes nothing stored. */
  lemma SealNext(m: seq<Node>, b': string, p: nat, stack: seq<Frame>)
    requires stack != [] && StackAt(m, b', p, stack, false) && p < |b'|
    ensures StackAt(m, Sealed(b', p), SealedLim(b', p), stack, false)
  {
    StackFits(m, b', p, stack);
    StackStable(m, m, b', Sealed(b', p), p, SealedLim(b', p), stack, false);
  }

  lemma StackFits(m: seq<Node>, b': string, lim: int, stack: seq<Frame>)
    requires stack != [] && StackAt(m, b', lim, stack, false)
    ensures StackSize(stack) <= |m|
  {
  }

  /** The switch on the first character of a value, for a property already linked into its container. */
  method ReadValue(buf: array<char>, ghost t: string, v: nat, obj: nat, mem: array<Node>, property: nat,
                   ghost stack: seq<Frame>, ghost name: Option<string>)
    returns (r: int, obj': nat, ghost stack': seq<Frame>)
    requires Unread(buf[..], t, v) && v < |t|
    requires stack != [] && obj == TopAt(stack) && property == StackSize(stack) < mem.Length
    requires StackAt(mem[..], Sealed(buf[..], v), SealedLim(buf[..], v), stack, true)
    requires mem[property].sibling == NULL
    requires NameAt(Sealed(buf[..], v), SealedLim(buf[..], v), mem[property].name, name)
    requires mem[property].u == Text(v)
    modifies buf, mem
    ensures t[v] != '{' && t[v] != '[' && ScalarValue(t, v).NoParse? ==> r == NULL
    ensures t[v] != '{' && t[v] != '[' && ScalarValue(t, v).Parsed? ==>
              && r >= ScalarValue(t, v).next && obj' == obj
              && stack' == Extend(stack, Member(name, ScalarValue(t, v).value))
              && SkipSeparators(t, r) == SkipSeparators(t, ScalarValue(t, v).next)
    ensures t[v] == '{' || t[v] == '[' ==>
              r == v + 1 && obj' == property && stack' == stack + [Frame(name, t[v] == '{', [])]
    ensures r != NULL ==>
              && Unread(buf[..], t, r)
              && StackAt(mem[..], Sealed(buf[..], r), SealedLim(buf[..], r), stack', false)
  {
    ghost var b, m := buf[..], mem[..];
    stack', obj' := stack, obj;
    if buf[v] == '{' || buf[v] == '[' {
      mem[property] := mem[property].(kind := if buf[v] == '{' then OBJ else ARRAY);
      mem[property] := mem[property].(u := Children(NULL, NULL));
      mem[property] := mem[property].(sibling := obj);
      obj' := property;
      r := v + 1;
      stack' := stack + [Frame(name, t[v] == '{', [])];
      SealedAdvance(b, b, v, r);
      OpenedSlot(m, mem[..], Sealed(b, v), SealedLim(b, v), Sealed(b, r), SealedLim(b, r), stack, name, t[v] == '{');
    } else {
      r := ReadScalar(buf, t, v, mem, property);
      if r != NULL {
        ghost var value := ScalarValue(t, v).value;
        stack' := Extend(stack, Member(name, value));
        SealedAdvance(b, buf[..], v, r);
        FilledSlot(m, mem[..], b, buf[..], v, r, stack, Member(name, value));
      }
    }
  }

  lemma OpenedSlot(m: seq<Node>, m': seq<Node>, b: string, lim: nat, b': string, lim': nat,
                   stack: seq<Frame>, name: Option<string>, isObj: bool)
    requires stack != [] && StackSize(stack) < |m| == |m'|
    requires StackAt(m, b, lim, stack, true)
    requires m' == m[StackSize(stack) := m'[StackSize(stack)]]
    requires m'[StackSize(stack)] ==
             Node(TopAt(stack), m[StackSize(stack)].name, Children(NULL, NULL), if isObj then OBJ else ARRAY)
    requires NameAt(b, lim, m[StackSize(stack)].name, name) && SameText(b, b', lim, lim')
    ensures StackAt(m', b', lim', stack + [Frame(name, isObj, [])], false)
  {
    StackStable(m, m', b, b', lim, lim', stack, true);
    if name.Some? {
      StrAtStable(b, b', lim, lim', m[StackSize(stack)].name, name.value);
    }
    OpenKeepsStack(m', b', lim', stack, Frame(name, isObj, []));
  }

  lemma FilledSlot(m: seq<Node>, m': seq<Node>, b: string, b': string, v: nat, r: nat, stack: seq<Frame>,
                   member: Member)
    requires stack != [] && StackSize(stack) < |m| == |m'|
    requires member.value.Scalar?
    requires StackAt(m, Sealed(b, v), SealedLim(b, v), stack, true)
    requires SameText(Sealed(b, v), Sealed(b', r), SealedLim(b, v), SealedLim(b', r))
    requires m' == m[StackSize(stack) := m'[StackSize(stack)]]
    requires var n, n' := m[StackSize(stack)], m'[StackSize(stack)];
             && n.sibling == NULL && NameAt(Sealed(b, v), SealedLim(b, v), n.name, member.name)
             && n'.u.Text? && n' == n.(u := n'.u, kind := member.value.kind)
             && StrAt(Sealed(b', r), SealedLim(b', r), n'.u.value, member.value.text)
    ensures StackAt(m', Sealed(b', r), SealedLim(b', r), Extend(stack, member), false)
  {
    var k, gb', lim' := StackSize(stack), Sealed(b', r), SealedLim(b', r);
    StackStable(m, m', Sealed(b, v), gb', SealedLim(b, v), lim', stack, true);
    if member.name.Some? {
      StrAtStable(Sealed(b, v), gb', SealedLim(b, v), lim', m[k].name, member.name.value);
    }
    FillSlot(m', gb', lim', stack, member);
  }

  /** The name of a new property, when its container is an object; the index of its value. */
  method ReadName(buf: array<char>, ghost t: string, p: nat, isArray: bool, mem: array<Node>, property: nat)
    returns (v: int)
    requires Unread(buf[..], t, p) && p < |t| && property < mem.Length
    requires isArray || !IsBracket(t[p]) || t[p] == ']'
    modifies buf, mem
    ensures var name := MemberName(t, p, !isArray);
            if name.NoParse? then v == NULL
            else
              && v == name.next
              && Unread(buf[..], t, v)
              && SameText(Sealed(old(buf[..]), p), Sealed(buf[..], v),
                          SealedLim(old(buf[..]), p), SealedLim(buf[..], v))
              && NameAt(Sealed(buf[..], v), SealedLim(buf[..], v), mem[property].name, name.value)
              && mem[..] == old(mem[..])[property := mem[property]]
  {
    if !isArray {
      if buf[p] != '\"' {
        return NULL;
      }
      v := PropertyName(buf, t, p, mem, property);
      if v != NULL {
        SealedAdvance(old(buf[..]), buf[..], p, v);
      }
    } else {
      mem[property] := mem[property].(name := NULL);
      v := p;
    }
  }

  /** add, and the property's value before its kind is known. */
  method LinkProperty(mem: array<Node>, obj: nat, property: nat, v: nat, ghost b: string, ghost lim: nat,
                      ghost stack: seq<Frame>)
    requires stack != [] && StackAt(mem[..], b, lim, stack, false) && lim <= |b|
    requires obj == TopAt(stack) && property == StackSize(stack) < mem.Length
    modifies mem
    ensures StackAt(mem[..], b, lim, stack, true)
    ensures mem[property] == old(mem[property]).(sibling := NULL, u := Text(v))
  {
    AddKeepsStack(mem[..], b, lim, stack);
    Add(mem, obj, property);
    ghost var m := mem[..];
    mem[property] := mem[property].(u := Text(v));
    StackStable(m, mem[..], b, b, lim, lim, stack, true);
  }

  /** The rest of that branch, once the name has been read: link the property in and read its value. */
  method ReadProperty(buf: array<char>, ghost t: string, ghost p: nat, v: nat, obj: nat, mem: array<Node>,
                      property: nat,
                      ghost b0: string, ghost m0: seq<Node>, ghost stack: seq<Frame>, ghost whole: Parse<Value>)
    returns (r: int, obj': nat, ghost stack': seq<Frame>)
    requires ReadsOn(b0, m0, t, p, obj, property, stack, whole) && property < |m0| == mem.Length
    requires SkipSeparators(t, p) == Some(p) && t[p] != Close(Top(stack).isObj)
    requires MemberName(t, p, Top(stack).isObj).Parsed? && v == MemberName(t, p, Top(stack).isObj).next
    requires Unread(buf[..], t, v)
    requires SameText(Sealed(b0, p), Sealed(buf[..], v), SealedLim(b0, p), SealedLim(buf[..], v))
    requires NameAt(Sealed(buf[..], v), SealedLim(buf[..], v), mem[property].name,
                    MemberName(t, p, Top(stack).isObj).value)
    requires mem[..] == m0[property := mem[property]]
    modifies buf, mem
    ensures r == NULL ==> whole.NoParse?
    ensures r != NULL ==> p < r && ReadsOn(buf[..], mem[..], t, r, obj', property + 1, stack', whole)
  {
    ghost var b, m, name := buf[..], mem[..], MemberName(t, p, Top(stack).isObj).value;
    StackStable(m0, m, Sealed(b0, p), Sealed(b, v), SealedLim(b0, p), SealedLim(b, v), stack, false);
    LinkProperty(mem, obj, property, v, Sealed(b, v), SealedLim(b, v), stack);
    r, obj', stack' := ReadValue(buf, t, v, obj, mem, property, stack, name);
    if r != NULL {
      PropertyRead(t, p, v, r, obj', stack, stack', name, whole);
    } else {
      MemberStep(t, p, stack);
    }
  }

  /** The document resumes after the property just as it did before it. */
  lemma PropertyRead(t: string, p: nat, v: nat, r: nat, obj': nat, stack: seq<Frame>, stack': seq<Frame>,
                     name: Option<string>, whole: Parse<Value>)
    requires stack != [] && stack[0].name.None? && whole == Resume(t, p, stack)
    requires SkipSeparators(t, p) == Some(p) && t[p] != Close(Top(stack).isObj)
    requires MemberName(t, p, Top(stack).isObj) == Parsed(name, v)
    requires if t[v] == '{' || t[v] == '[' then
               r == v + 1 && obj' == StackSize(stack) && stack' == stack + [Frame(name, t[v] == '{', [])]
             else
               && ScalarValue(t, v).Parsed? && obj' == TopAt(stack)
               && stack' == Extend(stack, Member(name, ScalarValue(t, v).value))
               && SkipSeparators(t, r) == SkipSeparators(t, ScalarValue(t, v).next)
    ensures stack' != [] && stack'[0].name.None? && obj' == TopAt(stack') && StackSize(stack') == StackSize(stack) + 1
    ensures whole == Resume(t, r, stack')
  {
    if t[v] == '{' || t[v] == '[' {
      OpenStep(t, p, stack, name, t[v] == '{', v);
      assert Pop(stack') == stack;
      StackSizePush(stack, Frame(name, t[v] == '{', []));
    } else {
      var m := Member(name, ScalarValue(t, v).value);
      MemberStep(t, p, stack);
      SameRest(t, ScalarValue(t, v).next, r, stack');
      StackSizeExtend(stack, m);
      assert Pop(stack') == Pop(stack);
    }
  }

  /** The branch of the loop at a new member. */
  method ReadMember(buf: array<char>, ghost t: string, p: nat, obj: nat, pool: JsonPool,
                    ghost stack: seq<Frame>, ghost whole: Parse<Value>)
    returns (r: int, obj': nat, ghost stack': seq<Frame>)
    requires pool.Valid() && ReadsOn(buf[..], pool.mem[..], t, p, obj, pool.nextFree, stack, whole)
    requires SkipSeparators(t, p) == Some(p) && t[p] != Close(Top(stack).isObj)
    modifies buf, pool, pool.mem
    ensures pool.Valid()
    ensures r == NULL ==> whole.NoParse? || Size(whole.value) > pool.qty
    ensures r != NULL ==> p < r && ReadsOn(buf[..], pool.mem[..], t, r, obj', pool.nextFree, stack', whole)
  {
    var mem := pool.mem;
    ghost var m0, b0 := mem[..], buf[..];
    stack', obj' := stack, obj;
    MemberStep(t, p, stack);
    var property := pool.New();
    if property == NULL {
      if whole.Parsed? {
        OneMoreSlot(t, p, stack);
      }
      return NULL, obj', stack';
    }
    var v := ReadName(buf, t, p, mem[obj].kind == ARRAY, mem, property);
    if v == NULL {
      return NULL, obj', stack';
    }
    r, obj', stack' := ReadProperty(buf, t, p, v, obj, mem, property, b0, m0, stack, whole);
  }

  /** What objValue does to the root before its loop. */
  method OpenRoot(ghost b: string, ghost t: string, ptr: nat, mem: array<Node>)
    requires mem.Length >= 1 && mem[0].name == NULL
    requires Unread(b, t, ptr) && SkipBlanks(t, 0) == Some(ptr) && t[ptr] == '{'
    modifies mem
    ensures ReadsOn(b, mem[..], t, ptr + 1, 0, 1, [Frame(None, true, [])], Document(t))
  {
    mem[0] := mem[0].(kind := OBJ);
    mem[0] := mem[0].(u := Children(NULL, NULL));
    mem[0] := mem[0].(sibling := NULL);
    DocumentStart(t, ptr);
    assert StackSize([Frame(None, true, [])]) == 1;
  }

  /**
    How a turn of the loop ends: with a null pointer, with the root closed, or with a cursor and container to
    go on with.
   */
  datatype Turn = Failed | Finished(end: nat) | GoOn(p: nat, obj: nat)

  /** The turn from its first character that is neither blank nor comma. */
  method TurnAt(buf: array<char>, ghost t: string, q: nat, obj: nat, pool: JsonPool,
                ghost stack: seq<Frame>, ghost whole: Parse<Value>)
    returns (turn: Turn, ghost stack': seq<Frame>)
    requires pool.Valid() && ReadsOn(buf[..], pool.mem[..], t, q, obj, pool.nextFree, stack, whole)
    requires SkipSeparators(t, q) == Some(q)
    requires obj < pool.mem.Length && pool.mem[obj].kind == if Top(stack).isObj then OBJ else ARRAY
    modifies buf, pool, pool.mem
    ensures pool.Valid()
    ensures turn.Failed? ==> whole.NoParse? || Size(whole.value) > pool.qty
    ensures turn.Finished? ==>
              && whole.Parsed? && whole.next == turn.end && Size(whole.value) <= pool.qty
              && Unread(buf[..], t, turn.end)
              && MemberAt(pool.mem[..], buf[..], turn.end, 0, Member(None, whole.value), NULL)
    ensures turn.GoOn? ==>
              q < turn.p && ReadsOn(buf[..], pool.mem[..], t, turn.p, turn.obj, pool.nextFree, stack', whole)
  {
    var mem := pool.mem;
    var endchar := if mem[obj].kind == OBJ then '}' else ']';
    if buf[q] == endchar {
      var parent;
      parent, stack' := CloseContainer(buf, t, q, obj, mem, pool.nextFree, stack, whole);
      turn := if parent == NULL then Finished(q + 1) else GoOn(q + 1, parent);
    } else {
      var n, obj';
      n, obj', stack' := ReadMember(buf, t, q, obj, pool, stack, whole);
      turn := if n == NULL then Failed else GoOn(n, obj');
    }
  }

  method TakeTurn(buf: array<char>, ghost t: string, p: nat, obj: nat, pool: JsonPool,
                  ghost stack: seq<Frame>, ghost whole: Parse<Value>)
    returns (turn: Turn, ghost stack': seq<Frame>)
    requires pool.Valid() && ReadsOn(buf[..], pool.mem[..], t, p, obj, pool.nextFree, stack, whole)
    modifies buf, pool, pool.mem
    ensures pool.Valid()
    ensures turn.Failed? ==> whole.NoParse? || Size(whole.value) > pool.qty
    ensures turn.Finished? ==>
              && whole.Parsed? && whole.next == turn.end && Size(whole.value) <= pool.qty
              && Unread(buf[..], t, turn.end)
              && MemberAt(pool.mem[..], buf[..], turn.end, 0, Member(None, whole.value), NULL)
    ensures turn.GoOn? ==>
              p < turn.p && ReadsOn(buf[..], pool.mem[..], t, turn.p, turn.obj, pool.nextFree, stack', whole)
  {
    var mem := pool.mem;
    stack' := stack;
    BlanksKeep(buf[..], mem[..], t, p, obj, pool.nextFree, stack, whole);
    var q := GoBlank(buf, t, p);
    if q == NULL {
      return Failed, stack';
    }
    if buf[q] == ',' {
      return GoOn(q + 1, obj), stack';
    }
    turn, stack' := TurnAt(buf, t, q, obj, pool, stack, whole);
  }

  /** objValue, for a root whose `{` is at ptr; the loop stops when the root is closed. */
  method ObjValue(buf: array<char>, ghost t: string, ptr: nat, pool: JsonPool) returns (r: int)
    requires pool.Valid() && pool.nextFree == 1 && pool.mem[0].name == NULL
    requires Unread(buf[..], t, ptr) && SkipBlanks(t, 0) == Some(ptr) && t[ptr] == '{'
    modifies buf, pool, pool.mem
    ensures r == NULL <==> Document(t).NoParse? || Size(Document(t).value) > pool.qty
    ensures r != NULL ==>
              && r == Document(t).next && Unread(buf[..], t, r)
              && MemberAt(pool.mem[..], buf[..], r, 0, Member(None, Document(t).value), NULL)
  {
    var p, obj := ptr + 1, 0;
    ghost var stack := [Frame(None, true, [])];
    OpenRoot(buf[..], t, ptr, pool.mem);
    while true
      invariant pool.Valid()
      invariant ReadsOn(buf[..], pool.mem[..], t, p, obj, pool.nextFree, stack, Document(t))
      decreases |t| - p
    {
      var turn, stack' := TakeTurn(buf, t, p, obj, pool, stack, Document(t));
      match turn
      case Failed => return NULL;
      case Finished(end) => return end;
      case GoOn(p', obj') => p, obj, stack := p', obj', stack';
    }
  }

  /**
    json_create. It succeeds exactly on the texts the grammar accepts whose tree fits the pool, and
    then slot 0 stores that tree, with every name and value a C string below the end of the document.
   */
  method JsonCreate(buf: array<char>, ghost t: string, mem: array<Node>, qty: nat) returns (root: int)
    requires Unread(buf[..], t, 0) && 1 <= qty <= mem.Length
    modifies buf, mem
    ensures root == if Document(t).Parsed? && Size(Document(t).value) <= qty then 0 else NULL
    ensures root != NULL ==>
              && Unread(buf[..], t, Document(t).next)
              && MemberAt(mem[..], buf[..], Document(t).next, 0, Member(None, Document(t).value), NULL)
  {
    var ptr := GoBlank(buf, t, 0);
    if ptr == NULL || buf[ptr] != '{' {
      return NULL;
    }
    var pool := new JsonPool(mem, qty);
    mem[0] := mem[0].(name := NULL, sibling := NULL, u := Children(NULL, NULL));
    ptr := ObjValue(buf, t, ptr, pool);
    root := if ptr == NULL then NULL else 0;
  }
}
