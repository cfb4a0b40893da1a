/** The walk over the tokens of an acknowledgement (ack_handler in aliotutil.c). */
module AckHandler {
  import opened Prelude
  import opened Jsmn
  import opened JsonText
  import opened JsonParse
  import opened JsmnParser

  /** `*state`, `context` and `*http_code`. */
  datatype Ack = Ack(state: int, context: string, httpCode: int)

  /** A leaf of a value as it stands in the text; keys are leaves too. */
  datatype Leaf = Leaf(quoted: bool, text: string)

  function Leaves(v: Json): seq<Leaf> {
    match v
    case Prim(text) => [Leaf(false, text)]
    case Str(content) => [Leaf(true, content)]
    case Arr(items) => ItemLeaves(items)
    case Obj(members) => MemberLeaves(members)
  }

  function ItemLeaves(items: Items): seq<Leaf> {
    match items
    case NoItems(_) => []
    case Item(_, head, _, tail) => Leaves(head) + ItemLeaves(tail)
  }

  function MemberLeaves(members: Members): seq<Leaf> {
    match members
    case NoMembers(_) => []
    case Member(_, key, _, _, value, _, tail) => [Leaf(true, key)] + Leaves(value) + MemberLeaves(tail)
  }

  /** The text behind a "context" is the context, the one behind an "http_code" the code. */
  function Take(a: Ack, leaf: Leaf, atoi: string -> int): Ack {
    if a.state == 2 then a.(httpCode := atoi(leaf.text), state := 0)
    else if !leaf.quoted then a.(state := 0)
    else if a.state == 1 then a.(context := leaf.text, state := 0)
    else if leaf.text == "context" then a.(state := 1)
    else if leaf.text == "http_code" then a.(state := 2)
    else a.(state := 0)
  }

  /** The leaves in the order of the text. */
  function TakeAll(a: Ack, leaves: seq<Leaf>, atoi: string -> int): Ack {
    if leaves == [] then a else Take(TakeAll(a, leaves[..|leaves| - 1], atoi), leaves[|leaves| - 1], atoi)
  }

  lemma {:induction false} TakeAppend(a: Ack, p: seq<Leaf>, q: seq<Leaf>, atoi: string -> int)
    ensures TakeAll(a, p + q, atoi) == TakeAll(TakeAll(a, p, atoi), q, atoi)
    decreases |q|
  {
    if q == [] {
      assert p + q == p;
    } else {
      assert (p + q)[..|p + q| - 1] == p + q[..|q| - 1];
      TakeAppend(a, p, q[..|q| - 1], atoi);
    }
  }

  predicate Name(text: string) { text == "context" || text == "http_code" }

  /** An object whose values are leaves, and no string in it is one of the two names but as a key or behind one. */
  predicate Flat(members: Members) {
    match members
    case NoMembers(_) => true
    case Member(_, key, _, _, value, _, tail) =>
      && (value.Prim? || value.Str?) && (!Name(key) && value.Str? ==> !Name(value.content)) && Flat(tail)
  }

  /** The string of the last member "context" that has one. */
  function ContextOf(members: Members, before: string): string {
    match members
    case NoMembers(_) => before
    case Member(_, key, _, _, value, _, tail) =>
      ContextOf(tail, if key == "context" && value.Str? then value.content else before)
  }

  /** What atoi makes of the last member "http_code", quoted or not. */
  function CodeOf(members: Members, before: int, atoi: string -> int): int {
    match members
    case NoMembers(_) => before
    case Member(_, key, _, _, value, _, tail) =>
      CodeOf(tail,
             if key == "http_code" && value.Prim? then atoi(value.text)
             else if key == "http_code" && value.Str? then atoi(value.content)
             else before, atoi)
  }

  /** The leaves of such an object give the string of its "context" and the number of its "http_code". */
  lemma {:induction false} FlatObject(members: Members, context: string, code: int, atoi: string -> int)
    requires Flat(members)
    ensures TakeAll(Ack(0, context, code), MemberLeaves(members), atoi)
         == Ack(0, ContextOf(members, context), CodeOf(members, code, atoi))
  {
    match members
    case NoMembers(_) =>
    case Member(_, key, _, _, value, _, tail) =>
      var a := Ack(0, context, code);
      var first := [Leaf(true, key)] + Leaves(value);
      TakeAppend(a, first, MemberLeaves(tail), atoi);
      TakeTwo(a, Leaf(true, key), Leaves(value)[0], atoi);
      assert first == [Leaf(true, key), Leaves(value)[0]];
      var b := TakeAll(a, first, atoi);
      FlatObject(tail, b.context, b.httpCode, atoi);
  }

  lemma TakeTwo(a: Ack, k: Leaf, v: Leaf, atoi: string -> int)
    ensures TakeAll(a, [k, v], atoi) == Take(Take(a, k, atoi), v, atoi)
  {
    hide Take;
    assert [k, v][..1] == [k] && [k][..0] == [];
    assert TakeAll(a, [k], atoi) == Take(a, k, atoi);
  }

  /** The tokens from `t` on are those of `v`; a key's size does not matter. */
  ghost predicate Node(js: string, toks: seq<Token>, t: nat, v: Json, at: nat) {
    && t + Size(v) <= |toks| && Here(js, at, Print(v))
    && if v.Str? then toks[t].kind == String && toks[t].start == at + 1 && toks[t].end == at + 1 + |v.content|
       else toks[t..t + Size(v)] == Tokens(v, at)
  }

  /** The text of a leaf token. */
  lemma LeafText(js: string, toks: seq<Token>, t: nat, v: Json, at: nat)
    requires Node(js, toks, t, v, at) && (v.Str? || v.Prim?)
    ensures 0 <= toks[t].start <= toks[t].end <= |js|
    ensures js[toks[t].start..toks[t].end] == if v.Str? then v.content else v.text
    ensures toks[t].kind == if v.Str? then String else Primitive
  {
    if v.Str? {
      HereSplit(js, at, "\"", v.content + "\"");
      assert Print(v) == "\"" + (v.content + "\"");
      HereSplit(js, at + 1, v.content, "\"");
    } else {
      assert toks[t..t + 1][0] == toks[t];
    }
  }

  /** The rest of an array's items: their tokens start at `t`, their text at `at`. */
  ghost predicate ItemsAt(js: string, toks: seq<Token>, t: nat, items: Items, at: nat, separator: string) {
    && t + ItemsSize(items) <= |toks| && Here(js, at, PrintItems(items, separator))
    && toks[t..t + ItemsSize(items)] == ItemTokens(items, at, separator)
  }

  ghost predicate MembersAt(js: string, toks: seq<Token>, t: nat, members: Members, at: nat, separator: string) {
    && t + MembersSize(members) <= |toks| && Here(js, at, PrintMembers(members, separator))
    && toks[t..t + MembersSize(members)] == MemberTokens(members, at, separator)
  }

  lemma ArrayNode(js: string, toks: seq<Token>, t: nat, v: Json, at: nat)
    requires Node(js, toks, t, v, at) && v.Arr?
    ensures t < |toks| && toks[t].kind == Array && toks[t].size == ItemCount(v.items)
    ensures ItemsAt(js, toks, t + 1, v.items, at + 1, "")
  {
    hide Here, ItemTokens, PrintItems;
    HereSplit(js, at, "[", PrintItems(v.items, ""));
    var s := toks[t..t + Size(v)];
    assert s[0] == toks[t] && s[1..] == toks[t + 1..t + Size(v)];
  }

  lemma ObjectNode(js: string, toks: seq<Token>, t: nat, v: Json, at: nat)
    requires Node(js, toks, t, v, at) && v.Obj?
    ensures t < |toks| && toks[t].kind == Object && toks[t].size == MemberCount(v.members)
    ensures MembersAt(js, toks, t + 1, v.members, at + 1, "")
  {
    hide Here, MemberTokens, PrintMembers;
    HereSplit(js, at, "{", PrintMembers(v.members, ""));
    var s := toks[t..t + Size(v)];
    assert s[0] == toks[t] && s[1..] == toks[t + 1..t + Size(v)];
  }

  /** The first item and the rest. */
  lemma FirstItem(js: string, toks: seq<Token>, t: nat, items: Items, at: nat, separator: string)
    returns (p: nat, next: nat)
    requires ItemsAt(js, toks, t, items, at, separator) && items.Item?
    ensures Node(js, toks, t, items.head, p)
    ensures ItemsAt(js, toks, t + Size(items.head), items.tail, next, ",")
  {
    hide Here, Tokens, Print;
    var Item(before, head, after, tail) := items;
    p := at + |separator + before|;
    next := p + |Print(head)| + |after|;
    var rest := PrintItems(tail, ",");
    HereSplit(js, at, separator + before, Print(head) + (after + rest));
    HereSplit(js, p, Print(head), after + rest);
    HereSplit(js, p + |Print(head)|, after, rest);
    var n := t + ItemsSize(items);
    Subrange(toks, t, n, 0, Size(head));
    Subrange(toks, t, n, Size(head), n - t);
    HeadNode(js, toks, t, head, p);
  }

  lemma HeadNode(js: string, toks: seq<Token>, t: nat, v: Json, at: nat)
    requires t + Size(v) <= |toks| && Here(js, at, Print(v)) && toks[t..t + Size(v)] == Tokens(v, at)
    ensures Node(js, toks, t, v, at)
  {
    if v.Str? {
      assert toks[t..t + Size(v)][0] == toks[t];
    }
  }

  /** A member: the key, the value and the rest. */
  lemma FirstMember(js: string, toks: seq<Token>, t: nat, members: Members, at: nat, separator: string)
    returns (k: nat, p: nat, next: nat)
    requires MembersAt(js, toks, t, members, at, separator) && members.Member?
    ensures Node(js, toks, t, Str(members.key), k) && Node(js, toks, t + 1, members.value, p)
    ensures MembersAt(js, toks, t + 1 + Size(members.value), members.tail, next, ",")
  {
    hide Here, Tokens, Print, Quoted;
    var Member(before, key, afterKey, beforeValue, value, after, tail) := members;
    var rest := PrintMembers(tail, ",");
    var colon := afterKey + ":" + beforeValue;
    k := at + |separator + before|;
    p := k + |Quoted(key)| + |colon|;
    next := p + |Print(value)| + |after|;
    MemberPlaces(js, members, at, separator);
    var n := t + MembersSize(members);
    assert toks[t..n][0] == toks[t];
    Subrange(toks, t, n, 1, 1 + Size(value));
    Subrange(toks, t, n, 1 + Size(value), n - t);
    HeadNode(js, toks, t + 1, value, p);
    KeyNode(js, toks, t, key, k);
  }

  /** Where the parts of a member stand. */
  lemma MemberPlaces(js: string, members: Members, at: nat, separator: string)
    requires Here(js, at, PrintMembers(members, separator)) && members.Member?
    ensures var k := at + |separator + members.before|;
            var p := k + |Quoted(members.key)| + |members.afterKey + ":" + members.beforeValue|;
            && Here(js, k, Quoted(members.key)) && Here(js, p, Print(members.value))
            && Here(js, p + |Print(members.value)| + |members.after|, PrintMembers(members.tail, ","))
  {
    hide Here, Print, Quoted, PrintMembers;
    var Member(before, key, afterKey, beforeValue, value, after, tail) := members;
    var rest, colon := PrintMembers(tail, ","), afterKey + ":" + beforeValue;
    MemberText(members, separator);
    var k := at + |separator + before|;
    var p := k + |Quoted(key)| + |colon|;
    HereSplit(js, at, separator + before, Quoted(key) + (colon + (Print(value) + (after + rest))));
    HereSplit(js, k, Quoted(key), colon + (Print(value) + (after + rest)));
    HereSplit(js, k + |Quoted(key)|, colon, Print(value) + (after + rest));
    HereSplit(js, p, Print(value), after + rest);
    HereSplit(js, p + |Print(value)|, after, rest);
  }

  lemma KeyNode(js: string, toks: seq<Token>, t: nat, key: string, k: nat)
    requires t < |toks| && Here(js, k, Quoted(key)) && toks[t] == Token(String, k + 1, k + 1 + |key|, 1)
    ensures Node(js, toks, t, Str(key), k)
  {
  }

  class Handler {
    var state: int
    var context: string
    var httpCode: int

    ghost function View(): Ack
      reads this
    {
      Ack(state, context, httpCode)
    }

    constructor (a: Ack)
      ensures View() == a
    {
      state, context, httpCode := a.state, a.context, a.httpCode;
    }

    /** `ack_handler` on the node at `t`, given that the tokens from there on are those of the value `v`. At depth `d`
        it is told of `d` tokens more than are left. */
    method Handle(js: string, toks: seq<Token>, t: nat, count: nat, atoi: string -> int, ghost v: Json, ghost at: nat,
                  ghost d: nat)
      returns (n: nat)
      requires Node(js, toks, t, v, at) && (count == 0 || Size(v) <= count) && count + t == |toks| + d
      modifies this
      ensures if count == 0 then n == 0 && View() == old(View())
              else n == Size(v) && View() == TakeAll(old(View()), Leaves(v), atoi)
      decreases Size(v)
    {
      hide Node, TakeAll, Leaves, Size, Here;
      if count == 0 {
        return 0;
      }
      NodeRoot(js, toks, t, v, at, View(), atoi);
      if toks[t].kind == Primitive || toks[t].kind == String {
        LeafText(js, toks, t, v, at);
        var buf := js[toks[t].start..toks[t].end];
        HandleLeaf(toks[t].kind, buf, atoi);
        return 1;
      } else if toks[t].kind == Object {
        n := HandleObject(js, toks, t, count, atoi, v, at, d);
      } else {
        n := HandleArray(js, toks, t, count, atoi, v, at, d);
      }
    }

    /** The first two branches. */
    method HandleLeaf(kind: Kind, buf: string, atoi: string -> int)
      requires kind == Primitive || kind == String
      modifies this
      ensures View() == Take(old(View()), Leaf(kind == String, buf), atoi)
    {
      if kind == Primitive {
        if state == 2 {
          httpCode := atoi(buf);
        }
        state := 0;
      } else {
        if state == 1 {
          context := buf;
        } else if state == 2 {
          httpCode := atoi(buf);
        } else if buf == "context" {
          state := 1;
          return;
        } else if buf == "http_code" {
          state := 2;
          return;
        }
        state := 0;
      }
    }

    method HandleArray(js: string, toks: seq<Token>, t: nat, count: nat, atoi: string -> int, ghost v: Json,
                       ghost at: nat, ghost d: nat)
      returns (n: nat)
      requires Node(js, toks, t, v, at) && v.Arr? && Size(v) <= count && count + t == |toks| + d
      modifies this
      ensures n == Size(v) && View() == TakeAll(old(View()), Leaves(v), atoi)
      decreases Size(v), 0
    {
      hide Node, TakeAll, Leaves, ItemsAt;
      ArrayNode(js, toks, t, v, at);
      var j: nat := 0;
      ghost var items, p: nat, sep := v.items, at + 1, "";
      ghost var done: seq<Leaf> := [];
      NothingTaken(View(), atoi);
      assert ItemLeaves(v.items) == done + ItemLeaves(items);
      for i := 0 to toks[t].size
        invariant ItemsAt(js, toks, t + 1 + j, items, p, sep) && j + ItemsSize(items) == ItemsSize(v.items)
        invariant i + ItemCount(items) == toks[t].size
        invariant View() == TakeAll(old(View()), done, atoi) && done + ItemLeaves(items) == ItemLeaves(v.items)
      {
        ghost var q, next := FirstItem(js, toks, t + 1 + j, items, p, sep);
        var k := Handle(js, toks, t + 1 + j, count - j, atoi, items.head, q, d + 1);
        TakeAppend(old(View()), done, Leaves(items.head), atoi);
        done := done + Leaves(items.head);
        items, p, sep := items.tail, next, ",";
        j := j + k;
      }
      assert items.NoItems?;
      assert done == ItemLeaves(v.items);
      LeavesOf(v);
      return j + 1;
    }

    method HandleObject(js: string, toks: seq<Token>, t: nat, count: nat, atoi: string -> int, ghost v: Json,
                        ghost at: nat, ghost d: nat)
      returns (n: nat)
      requires Node(js, toks, t, v, at) && v.Obj? && Size(v) <= count && count + t == |toks| + d
      modifies this
      ensures n == Size(v) && View() == TakeAll(old(View()), Leaves(v), atoi)
      decreases Size(v), 0
    {
      hide Node, TakeAll, Leaves, MembersAt;
      ObjectNode(js, toks, t, v, at);
      var j: nat := 0;
      ghost var members, p: nat, sep := v.members, at + 1, "";
      ghost var done: seq<Leaf> := [];
      NothingTaken(View(), atoi);
      assert MemberLeaves(v.members) == done + MemberLeaves(members);
      for i := 0 to toks[t].size
        invariant MembersAt(js, toks, t + 1 + j, members, p, sep) && j + MembersSize(members) == MembersSize(v.members)
        invariant i + MemberCount(members) == toks[t].size
        invariant View() == TakeAll(old(View()), done, atoi) && done + MemberLeaves(members) == MemberLeaves(v.members)
      {
        ghost var k, q, next := FirstMember(js, toks, t + 1 + j, members, p, sep);
        ghost var key, value := [Leaf(true, members.key)], Leaves(members.value);
        var first := Handle(js, toks, t + 1 + j, count - j, atoi, Str(members.key), k, d + 1);
        LeavesOf(Str(members.key));
        TakeAppend(old(View()), done, key, atoi);
        j := j + first;
        var second := Handle(js, toks, t + 1 + j, count - j, atoi, members.value, q, d + 1);
        TakeAppend(old(View()), done + key, value, atoi);
        assert done + key + value + MemberLeaves(members.tail) == done + (key + value + MemberLeaves(members.tail));
        done := done + key + value;
        members, p, sep := members.tail, next, ",";
        j := j + second;
      }
      assert members.NoMembers?;
      assert done == MemberLeaves(v.members);
      LeavesOf(v);
      return j + 1;
    }
  }

  lemma NothingTaken(a: Ack, atoi: string -> int)
    ensures TakeAll(a, [], atoi) == a
  {
  }

  lemma LeavesOf(v: Json)
    ensures match v
            case Prim(text) => Leaves(v) == [Leaf(false, text)]
            case Str(content) => Leaves(v) == [Leaf(true, content)]
            case Arr(items) => Leaves(v) == ItemLeaves(items)
            case Obj(members) => Leaves(v) == MemberLeaves(members)
  {
  }

  lemma NodeRoot(js: string, toks: seq<Token>, t: nat, v: Json, at: nat, a: Ack, atoi: string -> int)
    requires Node(js, toks, t, v, at)
    ensures t < |toks|
    ensures toks[t].kind == if v.Prim? then Primitive else if v.Str? then String else if v.Arr? then Array else Object
    ensures v.Prim? ==> Size(v) == 1 && TakeAll(a, Leaves(v), atoi) == Take(a, Leaf(false, v.text), atoi)
    ensures v.Str? ==> Size(v) == 1 && TakeAll(a, Leaves(v), atoi) == Take(a, Leaf(true, v.content), atoi)
  {
    if v.Str? {
    } else {
      assert toks[t..t + Size(v)][0] == toks[t];
    }
    if v.Prim? || v.Str? {
      var l := Leaves(v);
      assert l[..|l| - 1] == [];
    }
  }

  /** `parse_http_ack` on the text of a value of at most a hundred tokens. */
  method ParseHttpAck(json: string, context: string, responseCode: int, atoi: string -> int,
                      ghost v: Json, ghost before: string, ghost after: string)
    returns (newContext: string, newCode: int)
    requires json == before + Print(v) + after && WellFormed(v) && White(before) && White(after) && Size(v) <= 100
    ensures var a := TakeAll(Ack(0, context, responseCode), Leaves(v), atoi);
            newContext == a.context && newCode == a.httpCode
    ensures v.Obj? && Flat(v.members) ==>
              newContext == ContextOf(v.members, context) && newCode == CodeOf(v.members, responseCode, atoi)
  {
    hide Run, Print, Tokens, WellFormed, White, Size, TakeAll, Leaves, Node;
    var tokens := new Token[100](_ => Token(Primitive, 0, 0, 0));
    var p := new Parser();
    assert tokens[..0] == [];
    ParsesEveryValue(v, before, after, 100);
    var r := p.Parse(json, tokens, 100);
    if v.Obj? && Flat(v.members) {
      FlatObject(v.members, context, responseCode, atoi);
      LeavesOf(v);
    }
    var toks := tokens[..p.toknext];
    RootNode(v, before, after);
    var h := new Handler(Ack(0, context, responseCode));
    var _ := h.Handle(json, toks, 0, p.toknext, atoi, v, |before|, 0);
    return h.context, h.httpCode;
  }

  lemma HereAll(text: string)
    ensures Here(text, 0, text)
  {
    assert text[0..0 + |text|] == text;
  }

  lemma SliceAll(t: seq<Token>, n: nat)
    requires n == |t|
    ensures t[0..0 + n] == t
  {
  }

  lemma RootNode(v: Json, before: string, after: string)
    ensures Node(before + Print(v) + after, Tokens(v, |before|), 0, v, |before|)
  {
    hide Tokens, Print, Size, Here, Node;
    var js := before + Print(v) + after;
    assert js == before + (Print(v) + after);
    HereAll(before + (Print(v) + after));
    HereSplit(js, 0, before, Print(v) + after);
    HereSplit(js, |before|, Print(v), after);
    SliceAll(Tokens(v, |before|), Size(v));
    HeadNode(js, Tokens(v, |before|), 0, v, |before|);
  }
}
