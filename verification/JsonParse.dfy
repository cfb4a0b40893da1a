/** jsmn_parse on the text of a JSON value. */
module JsonParse {
  import opened Prelude
  import opened Jsmn
  import opened JsonText

  // ---------------------------------------------------------------- leaves

  lemma {:induction false} ScanPrimitiveHere(js: string, pos: nat, text: string)
    requires Here(js, pos, text)
    requires forall i :: 0 <= i < |text| ==> ' ' <= text[i] && text[i] as int < 127 && !Delimiter(text[i])
    requires Ends(js, pos + |text|) || Delimiter(js[pos + |text|])
    ensures ScanPrimitive(js, pos) == End(pos + |text|)
    decreases |text|
  {
    if text != "" {
      HereAt(js, pos, text, 0);
      HereSplit(js, pos, text[..1], text[1..]);
      ScanPrimitiveHere(js, pos + 1, text[1..]);
    }
  }

  /** The parser's character classes are those of the values. */
  lemma Letters(c: char)
    ensures Escape(c) <==> EscapeLetter(c)
    ensures Delimiter(c) <==> c in {',', ':', ']', '}', ' ', '\t', '\r', '\n'}
    ensures Unquoted(c) <==> ' ' <= c && c as int < 127 && !Delimiter(c)
    ensures !EscapeLetter('u')
  {
  }

  lemma Digits(c: char)
    ensures Hex(c) <==> HexDigit(c)
  {
    var all := "0123456789ABCDEFabcdef";
    if '0' <= c <= '9' {
      assert all[c as int - '0' as int] == c;
    } else if 'A' <= c <= 'F' {
      assert all[10 + (c as int - 'A' as int)] == c;
    } else if 'a' <= c <= 'f' {
      assert all[16 + (c as int - 'a' as int)] == c;
    }
  }

  lemma FourHex(js: string, pos: nat)
    requires pos + 4 <= |js| && HexDigit(js[pos]) && HexDigit(js[pos + 1]) && HexDigit(js[pos + 2])
    requires HexDigit(js[pos + 3])
    ensures ScanHex(js, pos, 4) == Some(pos + 4)
  {
    Digits(js[pos]);
    Digits(js[pos + 1]);
    Digits(js[pos + 2]);
    Digits(js[pos + 3]);
    hide HexDigit;
    assert ScanHex(js, pos + 3, 1) == Some(pos + 4);
    assert ScanHex(js, pos + 2, 2) == Some(pos + 4);
    assert ScanHex(js, pos + 1, 3) == Some(pos + 4);
  }

  /** The scan of a string goes through any contents. */
  lemma {:induction false} ScanThrough(js: string, pos: nat, text: string)
    requires Here(js, pos, text) && StringText(text)
    ensures ScanString(js, pos) == ScanString(js, pos + |text|)
    decreases |text|
  {
    hide Escape, Hex, HexDigit, EscapeLetter, Here;
    if text != "" {
      Letters('u');
      HereAt(js, pos, text, 0);
      var n := if text[0] != '\\' then 1 else if EscapeLetter(text[1]) && StringText(text[2..]) then 2 else 6;
      if text[0] == '\\' {
        HereAt(js, pos, text, 1);
        Letters(text[1]);
      }
      if n == 6 {
        HereAt(js, pos, text, 2);
        HereAt(js, pos, text, 3);
        HereAt(js, pos, text, 4);
        HereAt(js, pos, text, 5);
        FourHex(js, pos + 2);
      }
      assert text == text[..n] + text[n..];
      HereSplit(js, pos, text[..n], text[n..]);
      ScanThrough(js, pos + n, text[n..]);
    }
  }

  lemma ScanStringHere(js: string, pos: nat, text: string)
    requires Here(js, pos, text + "\"") && StringText(text)
    ensures ScanString(js, pos) == End(pos + |text|)
  {
    hide StringText;
    HereSplit(js, pos, text, "\"");
    HereAt(js, pos + |text|, "\"", 0);
    ScanThrough(js, pos, text);
  }

  // ---------------------------------------------------------------- steps

  lemma {:induction false} SkipWhite(js: string, num: nat, s: State, space: string)
    requires Wf(s) && Here(js, s.pos, space) && White(space)
    ensures Run(js, num, s) == Run(js, num, s.(pos := s.pos + |space|))
    decreases |space|
  {
    hide Run, LastOpen, ScanPrimitive, ScanString;
    if space != "" {
      HereAt(js, s.pos, space, 0);
      HereSplit(js, s.pos, space[..1], space[1..]);
      OneStep(js, num, s);
      SkipWhite(js, num, s.(pos := s.pos + 1), space[1..]);
    }
  }

  /** The state behind a value. */
  function AfterValue(s: State, v: Json): (r: State)
    requires Wf(s)
    ensures Wf(r)
  {
    var toks := Bump(s.toks, s.super) + Tokens(v, s.pos);
    State(s.pos + |Print(v)|, toks, if v.Prim? || v.Str? then s.super else LastOpen(s.toks), s.count + Size(v),
          s.roots + if s.super == -1 then 1 else 0)
  }

  /** Container `c` is given `n` more in size and its end. */
  function Shut(toks: seq<Token>, c: nat, n: nat, end: nat): (r: seq<Token>)
    requires c < |toks|
    ensures |r| == |toks|
  {
    toks[c := toks[c].(size := toks[c].size + n, end := end)]
  }

  lemma ShutMore(toks: seq<Token>, more: seq<Token>, c: nat, n: nat, end: nat)
    requires c < |toks|
    ensures Shut(Bump(toks, c) + more, c, n, end) == Shut(toks, c, n + 1, end) + more
  {
  }

  lemma {:induction false} LastOpenTail(toks: seq<Token>, closed: seq<Token>)
    requires forall i :: 0 <= i < |closed| ==> !Open(closed[i])
    ensures LastOpen(toks + closed) == LastOpen(toks)
    decreases |closed|
  {
    hide Open;
    if closed == [] {
      assert toks + closed == toks;
    } else {
      var front := closed[..|closed| - 1];
      assert toks + closed == toks + front + [closed[|closed| - 1]];
      LastOpenAppend(toks + front, closed[|closed| - 1]);
      LastOpenTail(toks, front);
    }
  }

  /** Inside container `c`, before a separator or the end. */
  ghost predicate Inside(s: State, c: nat, kind: Kind) {
    && Wf(s) && c < |s.toks| && LastOpen(s.toks) == c && s.toks[c].kind == kind && Container(kind)
    && (s.super == c || (s.super != -1 && !Container(s.toks[s.super].kind)))
  }

  /** The state behind the closing bracket. */
  function Closed(s: State, c: nat, n: nat, pos: nat, inner: seq<Token>): State
    requires c < |s.toks|
  {
    var toks := Shut(s.toks, c, n, pos);
    State(pos, toks + inner, LastOpen(toks), s.count + |inner|, s.roots)
  }

  lemma CloseStep(js: string, num: nat, s: State, c: nat, kind: Kind)
    requires Inside(s, c, kind) && s.pos < |js| && js[s.pos] == if kind == Object then '}' else ']'
    ensures Run(js, num, s) == Run(js, num, Closed(s, c, 0, s.pos + 1, []))
  {
    hide Run, LastOpen, ScanPrimitive, ScanString;
    assert Shut(s.toks, c, 0, s.pos + 1) + [] == s.toks[c := s.toks[c].(end := s.pos + 1)];
    OneStep(js, num, s);
  }

  lemma CommaStep(js: string, num: nat, s: State, c: nat, kind: Kind)
    requires Inside(s, c, kind) && s.pos < |js| && js[s.pos] == ','
    ensures Run(js, num, s) == Run(js, num, s.(pos := s.pos + 1, super := c))
  {
    hide Run, LastOpen, ScanPrimitive, ScanString;
    OneStep(js, num, s);
  }

  /** A separator, if any, and white space: the container is the superior afterwards. */
  lemma Separate(js: string, num: nat, s: State, c: nat, kind: Kind, separator: string, before: string)
    requires Inside(s, c, kind) && White(before) && Here(js, s.pos, separator + before)
    requires separator == "," || (separator == "" && s.super == c)
    ensures Run(js, num, s) == Run(js, num, s.(pos := s.pos + |separator + before|, super := c))
  {
    hide Run;
    HereSplit(js, s.pos, separator, before);
    if separator == "," {
      HereAt(js, s.pos, separator, 0);
      CommaStep(js, num, s, c, kind);
    }
    SkipWhite(js, num, s.(pos := s.pos + |separator|, super := c), before);
  }

  lemma OneStep(js: string, num: nat, s: State)
    requires Wf(s) && !Ends(js, s.pos) && Step(js, num, s).Next?
    ensures Run(js, num, s) == Run(js, num, Step(js, num, s).s)
  {
    hide Step;
  }

  lemma StringStep(js: string, num: nat, s: State, text: string)
    requires Wf(s) && |s.toks| < num && StringText(text) && Here(js, s.pos, Quoted(text))
    ensures Run(js, num, s) == Run(js, num, AfterValue(s, Str(text)))
  {
    hide ScanString, StringText, Run, LastOpen, ScanPrimitive;
    assert Quoted(text) == "\"" + (text + "\"");
    HereAt(js, s.pos, Quoted(text), 0);
    HereSplit(js, s.pos, "\"", text + "\"");
    ScanStringHere(js, s.pos + 1, text);
    OneStep(js, num, s);
  }

  lemma PrimitiveStep(js: string, num: nat, s: State, text: string)
    requires Wf(s) && |s.toks| < num && PrimitiveText(text) && Here(js, s.pos, text)
    requires Ends(js, s.pos + |text|) || Delimiter(js[s.pos + |text|])
    ensures Run(js, num, s) == Run(js, num, AfterValue(s, Prim(text)))
  {
    hide ScanPrimitive, Run, LastOpen, ScanString;
    HereAt(js, s.pos, text, 0);
    forall i | 0 <= i < |text| ensures ' ' <= text[i] && text[i] as int < 127 && !Delimiter(text[i]) {
      Letters(text[i]);
    }
    ScanPrimitiveHere(js, s.pos, text);
    OneStep(js, num, s);
  }

  /** The state behind an opening bracket. */
  function Opened(s: State, kind: Kind): State
    requires Wf(s)
  {
    State(s.pos + 1, Bump(s.toks, s.super) + [Token(kind, s.pos, -1, 0)], |s.toks|, s.count + 1,
          s.roots + if s.super == -1 then 1 else 0)
  }

  lemma OpenStep(js: string, num: nat, s: State, kind: Kind)
    requires Wf(s) && |s.toks| < num && Container(kind)
    requires s.pos < |js| && js[s.pos] == if kind == Object then '{' else '['
    ensures Run(js, num, s) == Run(js, num, Opened(s, kind)) && Inside(Opened(s, kind), |s.toks|, kind)
  {
    hide Run, LastOpen, ScanPrimitive, ScanString;
    LastOpenAppend(Bump(s.toks, s.super), Token(kind, s.pos, -1, 0));
    OneStep(js, num, s);
  }

  /** The tokens of a whole container, once it is closed. */
  lemma ClosedValue(s: State, v: Json, inner: seq<Token>)
    requires Wf(s) && (v.Arr? || v.Obj?)
    requires Tokens(v, s.pos)
          == [Token(if v.Arr? then Array else Object, s.pos, s.pos + |Print(v)|,
                    if v.Arr? then ItemCount(v.items) else MemberCount(v.members))] + inner
    ensures var kind := if v.Arr? then Array else Object;
            var n := if v.Arr? then ItemCount(v.items) else MemberCount(v.members);
            AfterValue(s, v) == Closed(Opened(s, kind), |s.toks|, n, s.pos + |Print(v)|, inner)
  {
    hide Tokens, Print, ItemCount, MemberCount;
    var kind, n := (if v.Arr? then Array else Object), (if v.Arr? then ItemCount(v.items) else MemberCount(v.members));
    var toks, end := Opened(s, kind).toks, s.pos + |Print(v)|;
    var c := |s.toks|;
    assert Shut(toks, c, n, end) == Bump(s.toks, s.super) + [Token(kind, s.pos, end, n)];
    LastOpenAppend(Bump(s.toks, s.super), Token(kind, s.pos, end, n));
    BumpOpen(s.toks, s.super);
    assert Shut(toks, c, n, end) + inner == Bump(s.toks, s.super) + ([Token(kind, s.pos, end, n)] + inner);
  }

  /** What follows a value inside a container: white space and then a comma or a closing bracket. */
  predicate Followed(js: string, pos: nat) { Ends(js, pos) || Delimiter(js[pos]) }

  lemma FollowedByItems(js: string, pos: nat, after: string, tail: Items)
    requires Here(js, pos, after + PrintItems(tail, ",")) && White(after) && WellFormedItems(tail)
    ensures Followed(js, pos)
  {
    var rest := PrintItems(tail, ",");
    assert rest != "" && Delimiter(rest[0]);
    HereAt(js, pos, after + rest, 0);
  }

  lemma FollowedByMembers(js: string, pos: nat, after: string, tail: Members)
    requires Here(js, pos, after + PrintMembers(tail, ",")) && White(after) && WellFormedMembers(tail)
    ensures Followed(js, pos)
  {
    var rest := PrintMembers(tail, ",");
    assert rest != "" && Delimiter(rest[0]);
    HereAt(js, pos, after + rest, 0);
  }

  /** A value in container `c` leaves the parser in the container. */
  lemma ValueInside(s: State, c: nat, kind: Kind, v: Json)
    requires Inside(s, c, kind) && (s.super == c || v.Prim? || v.Str? || !Container(s.toks[s.super].kind))
    ensures var t := AfterValue(s, v);
            && Inside(t, c, kind) && (t.super == c || t.super == s.super)
            && t.toks == Bump(s.toks, s.super) + Tokens(v, s.pos) && t.count == s.count + Size(v) && t.roots == s.roots
            && t.pos == s.pos + |Print(v)|
  {
    hide Tokens, Print, Size;
    LastOpenTail(Bump(s.toks, s.super), Tokens(v, s.pos));
    BumpOpen(s.toks, s.super);
  }

  /** Closing the container behind some of its tokens. */
  lemma ClosedMore(s: State, t: State, c: nat, n: nat, end: nat, inner: seq<Token>, rest: seq<Token>)
    requires Wf(s) && c < |s.toks| && t.toks == Bump(s.toks, c) + inner
    requires t.count == s.count + |inner| && t.roots == s.roots
    requires forall i :: 0 <= i < |inner| ==> !Open(inner[i])
    ensures Closed(t, c, n, end, rest) == Closed(s, c, n + 1, end, inner + rest)
  {
    ShutMore(s.toks, inner, c, n, end);
    LastOpenTail(Shut(s.toks, c, n + 1, end), inner);
    assert Shut(s.toks, c, n + 1, end) + inner + rest == Shut(s.toks, c, n + 1, end) + (inner + rest);
  }

  /** A value's text takes the parser from before it to behind it. */
  lemma {:induction false} ParseValue(js: string, num: nat, s: State, v: Json)
    requires Wf(s) && |s.toks| + Size(v) <= num && WellFormed(v)
    requires Here(js, s.pos, Print(v)) && Followed(js, s.pos + |Print(v)|)
    ensures Run(js, num, s) == Run(js, num, AfterValue(s, v))
    decreases v, 1
  {
    hide Run, AfterValue;
    match v
    case Prim(text) => PrimitiveStep(js, num, s, text);
    case Str(content) => StringStep(js, num, s, content);
    case Arr(items) => ParseArray(js, num, s, items);
    case Obj(members) => ParseObject(js, num, s, members);
  }

  lemma {:induction false} ParseArray(js: string, num: nat, s: State, items: Items)
    requires Wf(s) && |s.toks| + 1 + ItemsSize(items) <= num && WellFormedItems(items)
    requires Here(js, s.pos, Print(Arr(items)))
    ensures Run(js, num, s) == Run(js, num, AfterValue(s, Arr(items)))
    decreases Arr(items), 0
  {
    hide Run, AfterValue, Inside, Closed, PrintItems, ItemTokens, ItemCount;
    var v := Arr(items);
    HereAt(js, s.pos, Print(v), 0);
    HereSplit(js, s.pos, "[", PrintItems(items, ""));
    OpenStep(js, num, s, Array);
    ParseItems(js, num, Opened(s, Array), |s.toks|, items, "");
    ClosedValue(s, v, ItemTokens(items, s.pos + 1, ""));
  }

  lemma {:induction false} ParseObject(js: string, num: nat, s: State, members: Members)
    requires Wf(s) && |s.toks| + 1 + MembersSize(members) <= num && WellFormedMembers(members)
    requires Here(js, s.pos, Print(Obj(members)))
    ensures Run(js, num, s) == Run(js, num, AfterValue(s, Obj(members)))
    decreases Obj(members), 0
  {
    hide Run, AfterValue, Inside, Closed, PrintMembers, MemberTokens, MemberCount;
    var v := Obj(members);
    HereAt(js, s.pos, Print(v), 0);
    HereSplit(js, s.pos, "{", PrintMembers(members, ""));
    OpenStep(js, num, s, Object);
    ParseMembers(js, num, Opened(s, Object), |s.toks|, members, "");
    ClosedValue(s, v, MemberTokens(members, s.pos + 1, ""));
  }

  lemma {:induction false} ParseItems(js: string, num: nat, s: State, c: nat, items: Items, separator: string)
    requires Inside(s, c, Array) && |s.toks| + ItemsSize(items) <= num && WellFormedItems(items)
    requires Here(js, s.pos, PrintItems(items, separator))
    requires separator == "," || (separator == "" && s.super == c)
    ensures Run(js, num, s)
         == Run(js, num, Closed(s, c, ItemCount(items), s.pos + |PrintItems(items, separator)|,
                                ItemTokens(items, s.pos, separator)))
    decreases items, 1
  {
    hide Run, AfterValue, Closed, Inside, White;
    match items
    case NoItems(space) => ParseEnd(js, num, s, c, Array, space);
    case Item(before, head, after, tail) =>
      var p := s.pos + |separator + before|;
      var next := ParseItem(js, num, s, c, items, separator);
      ParseItems(js, num, next, c, tail, ",");
      ClosedMore(s, next, c, ItemCount(tail), next.pos + |PrintItems(tail, ",")|, Tokens(head, p),
                 ItemTokens(tail, next.pos, ","));
  }

  lemma ParseEnd(js: string, num: nat, s: State, c: nat, kind: Kind, space: string)
    requires Inside(s, c, kind) && White(space)
    requires Here(js, s.pos, space + if kind == Object then "}" else "]")
    ensures Run(js, num, s) == Run(js, num, Closed(s, c, 0, s.pos + |space| + 1, []))
  {
    hide Run, Inside;
    var bracket := if kind == Object then "}" else "]";
    InsideMoved(s, c, kind, s.pos + |space|);
    HereSplit(js, s.pos, space, bracket);
    SkipWhite(js, num, s, space);
    HereAt(js, s.pos + |space|, bracket, 0);
    CloseStep(js, num, s.(pos := s.pos + |space|), c, kind);
  }

  lemma InsideMoved(s: State, c: nat, kind: Kind, pos: nat)
    requires Inside(s, c, kind)
    ensures Inside(s.(pos := pos), c, kind) && Inside(s.(pos := pos, super := c), c, kind) && Wf(s) && c < |s.toks|
  {
  }

  /** `next` is the state behind an element of container `c` and the white space after it; `inner` are its tokens. */
  ghost predicate Behind(s: State, c: nat, kind: Kind, inner: seq<Token>, pos: nat, next: State) {
    && Wf(s) && c < |s.toks| && Inside(next, c, kind) && next.pos == pos
    && next.toks == Bump(s.toks, c) + inner && next.count == s.count + |inner| && next.roots == s.roots
  }

  /** A value, with its superior set already, and the white space after it. */
  lemma {:induction false} ValueAndSpace(js: string, num: nat, s: State, c: nat, kind: Kind, v: Json, after: string)
    returns (next: State)
    requires Inside(s, c, kind) && |s.toks| + Size(v) <= num && WellFormed(v) && White(after)
    requires Here(js, s.pos, Print(v)) && Followed(js, s.pos + |Print(v)|) && Here(js, s.pos + |Print(v)|, after)
    ensures Inside(next, c, kind) && Run(js, num, s) == Run(js, num, next)
    ensures next.toks == Bump(s.toks, s.super) + Tokens(v, s.pos) && next.count == s.count + Size(v)
    ensures next.roots == s.roots && next.pos == s.pos + |Print(v)| + |after|
    decreases v, 2
  {
    hide Run, AfterValue, Print, Tokens, Size, WellFormed, White, Here;
    ParseValue(js, num, s, v);
    ValueInside(s, c, kind, v);
    SkipWhite(js, num, AfterValue(s, v), after);
    next := AfterValue(s, v);
    InsideMoved(next, c, kind, next.pos + |after|);
    next := next.(pos := next.pos + |after|);
  }

  lemma {:induction false} ParseItem(js: string, num: nat, s: State, c: nat, items: Items, separator: string)
    returns (next: State)
    requires Inside(s, c, Array) && |s.toks| + ItemsSize(items) <= num && WellFormedItems(items) && items.Item?
    requires Here(js, s.pos, PrintItems(items, separator))
    requires separator == "," || (separator == "" && s.super == c)
    ensures var p := s.pos + |separator + items.before|;
            && Wf(next) && Run(js, num, s) == Run(js, num, next)
            && Behind(s, c, Array, Tokens(items.head, p), p + |Print(items.head)| + |items.after|, next)
            && Here(js, next.pos, PrintItems(items.tail, ","))
    decreases items, 0
  {
    hide Run, Print, Tokens, Inside, Here, WellFormed, White, Size;
    var Item(before, head, after, tail) := items;
    var rest := PrintItems(tail, ",");
    HereSplit(js, s.pos, separator + before, Print(head) + (after + rest));
    Separate(js, num, s, c, Array, separator, before);
    var s1 := s.(pos := s.pos + |separator + before|, super := c);
    InsideMoved(s, c, Array, s1.pos);
    HereSplit(js, s1.pos, Print(head), after + rest);
    FollowedByItems(js, s1.pos + |Print(head)|, after, tail);
    HereSplit(js, s1.pos + |Print(head)|, after, rest);
    next := ValueAndSpace(js, num, s1, c, Array, head, after);
    InsideMoved(next, c, Array, next.pos);
  }

  lemma {:induction false} ParseMembers(js: string, num: nat, s: State, c: nat, members: Members, separator: string)
    requires Inside(s, c, Object) && |s.toks| + MembersSize(members) <= num && WellFormedMembers(members)
    requires Here(js, s.pos, PrintMembers(members, separator))
    requires separator == "," || (separator == "" && s.super == c)
    ensures Run(js, num, s)
         == Run(js, num, Closed(s, c, MemberCount(members), s.pos + |PrintMembers(members, separator)|,
                                MemberTokens(members, s.pos, separator)))
    decreases members, 1
  {
    hide Run, AfterValue, Closed, Inside, White, StringText, Tokens, Print;
    match members
    case NoMembers(space) => ParseEnd(js, num, s, c, Object, space);
    case Member(before, key, afterKey, beforeValue, value, after, tail) =>
      var k := s.pos + |separator + before|;
      var p := k + |Quoted(key)| + |afterKey + ":" + beforeValue|;
      var next := ParseMember(js, num, s, c, members, separator);
      ParseMembers(js, num, next, c, tail, ",");
      ClosedMore(s, next, c, MemberCount(tail), next.pos + |PrintMembers(tail, ",")|,
                 [Token(String, k + 1, k + 1 + |key|, 1)] + Tokens(value, p), MemberTokens(tail, next.pos, ","));
  }

  lemma {:induction false} ParseMember(js: string, num: nat, s: State, c: nat, members: Members, separator: string)
    returns (next: State)
    requires Inside(s, c, Object) && |s.toks| + MembersSize(members) <= num
    requires WellFormedMembers(members) && members.Member?
    requires Here(js, s.pos, PrintMembers(members, separator))
    requires separator == "," || (separator == "" && s.super == c)
    ensures var k := s.pos + |separator + members.before|;
            var p := k + |Quoted(members.key)| + |members.afterKey + ":" + members.beforeValue|;
            && Wf(next) && Run(js, num, s) == Run(js, num, next)
            && Behind(s, c, Object, [Token(String, k + 1, k + 1 + |members.key|, 1)] + Tokens(members.value, p),
                      p + |Print(members.value)| + |members.after|, next)
            && Here(js, next.pos, PrintMembers(members.tail, ","))
    decreases members, 0
  {
    hide Run, Print, Tokens, Inside, Here, WellFormed, White, Size, StringText, Quoted, AfterKey, PrintMembers;
    var Member(before, key, afterKey, beforeValue, value, after, tail) := members;
    var rest := PrintMembers(tail, ",");
    var colon := afterKey + ":" + beforeValue;
    MemberText(members, separator);
    var s2 := ParseToValue(js, num, s, c, separator, members, Print(value) + (after + rest));
    HereSplit(js, s2.pos, Print(value), after + rest);
    FollowedByMembers(js, s2.pos + |Print(value)|, after, tail);
    HereSplit(js, s2.pos + |Print(value)|, after, rest);
    next := ValueAndSpace(js, num, s2, c, Object, value, after);
    InsideMoved(next, c, Object, next.pos);
    InsideMoved(s, c, Object, s.pos);
    KeySized(s, c, key, s.pos + |separator + before|, Tokens(value, s2.pos));
  }

  lemma MemberText(m: Members, separator: string)
    requires m.Member?
    ensures PrintMembers(m, separator)
         == separator + m.before + (Quoted(m.key) + ((m.afterKey + ":" + m.beforeValue)
                                    + (Print(m.value) + (m.after + PrintMembers(m.tail, ",")))))
  {
    hide Print, Quoted;
  }

  /** From before a member to its value. */
  lemma ParseToValue(js: string, num: nat, s: State, c: nat, separator: string, m: Members, rest: string)
    returns (next: State)
    requires m.Member? && Inside(s, c, Object) && |s.toks| < num
    requires White(m.before) && StringText(m.key) && White(m.afterKey) && White(m.beforeValue)
    requires Here(js, s.pos, separator + m.before + (Quoted(m.key) + ((m.afterKey + ":" + m.beforeValue) + rest)))
    requires separator == "," || (separator == "" && s.super == c)
    ensures var colon := m.afterKey + ":" + m.beforeValue;
            && Inside(s, c, Object) && c < |s.toks|
            && next == AfterKey(s.(pos := s.pos + |separator + m.before|), c, m.key, |colon|)
            && Inside(next, c, Object) && Run(js, num, s) == Run(js, num, next) && Here(js, next.pos, rest)
            && next.pos == s.pos + |separator + m.before| + |Quoted(m.key)| + |colon|
            && next.super == |s.toks| && next.count == s.count + 1 && next.roots == s.roots
            && next.toks == Bump(s.toks, c) + [Token(String, s.pos + |separator + m.before| + 1,
                                                     s.pos + |separator + m.before| + 1 + |m.key|, 0)]
  {
    hide Run, Inside, Here, White, StringText, Quoted;
    var colon := m.afterKey + ":" + m.beforeValue;
    HereSplit(js, s.pos, separator + m.before, Quoted(m.key) + (colon + rest));
    Separate(js, num, s, c, Object, separator, m.before);
    var s1 := s.(pos := s.pos + |separator + m.before|, super := c);
    InsideMoved(s, c, Object, s1.pos);
    HereSplit(js, s1.pos, Quoted(m.key), colon + rest);
    HereSplit(js, s1.pos + |Quoted(m.key)|, colon, rest);
    ParseKey(js, num, s1, c, m.key, m.afterKey, m.beforeValue);
    next := AfterKey(s1, c, m.key, |colon|);
  }

  /** The state behind a key and its colon: the key is the superior of what comes. */
  function AfterKey(s: State, c: nat, key: string, colon: nat): State
    requires c < |s.toks|
  {
    State(s.pos + |Quoted(key)| + colon, Bump(s.toks, c) + [Token(String, s.pos + 1, s.pos + 1 + |key|, 0)], |s.toks|,
          s.count + 1, s.roots)
  }

  lemma KeySized(s: State, c: nat, key: string, k: nat, value: seq<Token>)
    requires c < |s.toks|
    ensures Bump(Bump(s.toks, c) + [Token(String, k + 1, k + 1 + |key|, 0)], |s.toks|) + value
         == Bump(s.toks, c) + ([Token(String, k + 1, k + 1 + |key|, 1)] + value)
  {
  }

  lemma ParseKey(js: string, num: nat, s: State, c: nat, key: string, afterKey: string, beforeValue: string)
    requires Inside(s, c, Object) && s.super == c && |s.toks| < num
    requires StringText(key) && White(afterKey) && White(beforeValue)
    requires Here(js, s.pos, Quoted(key)) && Here(js, s.pos + |Quoted(key)|, afterKey + ":" + beforeValue)
    ensures var t := AfterKey(s, c, key, |afterKey + ":" + beforeValue|);
            Run(js, num, s) == Run(js, num, t) && Inside(t, c, Object)
  {
    hide Run, White, StringText;
    StringStep(js, num, s, key);
    var s1 := AfterValue(s, Str(key));
    assert afterKey + ":" + beforeValue == afterKey + (":" + beforeValue);
    HereSplit(js, s1.pos, afterKey, ":" + beforeValue);
    SkipWhite(js, num, s1, afterKey);
    var s2 := s1.(pos := s1.pos + |afterKey|);
    HereAt(js, s2.pos, ":" + beforeValue, 0);
    ColonStep(js, num, s2);
    HereSplit(js, s2.pos, ":", beforeValue);
    SkipWhite(js, num, s2.(pos := s2.pos + 1, super := |s2.toks| - 1), beforeValue);
    KeyInside(s, c, key);
  }

  lemma ColonStep(js: string, num: nat, s: State)
    requires Wf(s) && s.pos < |js| && js[s.pos] == ':'
    ensures Run(js, num, s) == Run(js, num, s.(pos := s.pos + 1, super := |s.toks| - 1))
  {
    hide Run, LastOpen, ScanPrimitive, ScanString;
    OneStep(js, num, s);
  }

  lemma KeyInside(s: State, c: nat, key: string)
    requires Inside(s, c, Object)
    ensures forall colon: nat :: Inside(AfterKey(s, c, key, colon), c, Object)
  {
    var t := Token(String, s.pos + 1, s.pos + 1 + |key|, 0);
    LastOpenAppend(Bump(s.toks, c), t);
    BumpOpen(s.toks, c);
  }

  // ---------------------------------------------------------------- whole texts

  lemma WhiteEnds(js: string, pos: nat, after: string)
    requires Here(js, pos, after) && White(after) && pos + |after| == |js|
    ensures Followed(js, pos)
  {
    if after != "" {
      HereAt(js, pos, after, 0);
    }
  }

  lemma ParseText(v: Json, before: string, after: string, num: nat)
    requires WellFormed(v) && White(before) && White(after) && Size(v) <= num
    ensures var js := before + Print(v) + after;
            Run(js, num, START) == (State(|js|, Tokens(v, |before|), Run(js, num, START).0.super, Size(v), 1), Size(v))
  {
    hide Run, Print, Tokens, WellFormed, White, AfterValue, Size;
    var js := before + Print(v) + after;
    assert js == before + (Print(v) + after);
    assert Here(js, 0, before + (Print(v) + after));
    HereSplit(js, 0, before, Print(v) + after);
    SkipWhite(js, num, START, before);
    HereSplit(js, |before|, Print(v), after);
    WhiteEnds(js, |before| + |Print(v)|, after);
    var s := START.(pos := |before|);
    ParseValue(js, num, s, v);
    var t := AfterValue(s, v);
    LastOfValue(s, v);
    SkipWhite(js, num, t, after);
    AtEnd(js, num, t.(pos := |js|));
  }

  lemma LastOfValue(s: State, v: Json)
    requires s.toks == [] && s.super == -1 && s.count == 0 && s.roots == 0
    ensures var t := AfterValue(s, v);
            t == State(s.pos + |Print(v)|, Tokens(v, s.pos), t.super, Size(v), 1) && LastOpen(t.toks) == -1
  {
    hide Tokens, Print, Size;
    assert [] + Tokens(v, s.pos) == Tokens(v, s.pos);
    LastOpenTail([], Tokens(v, s.pos));
  }

  lemma AtEnd(js: string, num: nat, s: State)
    requires Wf(s) && s.pos == |js| && LastOpen(s.toks) == -1
    ensures Run(js, num, s) == (s, s.count)
  {
  }

  /** With fewer tokens the parser does the same or runs out of them. */
  lemma {:induction false} FewerTokens(js: string, few: nat, many: nat, s: State)
    requires Wf(s) && few <= many
    ensures Run(js, few, s).1 == NOMEM || Run(js, few, s) == Run(js, many, s)
    decreases |js| - s.pos
  {
    if !Ends(js, s.pos) {
      SameStep(js, few, many, s);
      match Step(js, few, s)
      case Stop(_) =>
      case Next(t) => FewerTokens(js, few, many, t);
    }
  }

  lemma SameStep(js: string, few: nat, many: nat, s: State)
    requires Wf(s) && few <= many && !Ends(js, s.pos)
    ensures Step(js, few, s) == Stop(NOMEM) || Step(js, few, s) == Step(js, many, s)
  {
    hide ScanString, ScanPrimitive, LastOpen;
  }

  /** For the text of any value, with white space anywhere: with enough tokens jsmn_parse gives exactly the value's
      tokens and returns their number, with fewer it reports that memory is short. */
  lemma ParsesEveryValue(v: Json, before: string, after: string, num: nat)
    requires WellFormed(v) && White(before) && White(after)
    ensures var (s, r) := Run(before + Print(v) + after, num, START);
            if Size(v) <= num then r == Size(v) && s.toks == Tokens(v, |before|) else r == -1
  {
    hide Run, Print, Tokens, WellFormed, White, Size;
    var js := before + Print(v) + after;
    if Size(v) <= num {
      ParseText(v, before, after, num);
    } else {
      ParseText(v, before, after, Size(v));
      FewerTokens(js, num, Size(v), START);
      RunRoom(js, num, START);
    }
  }
}
