/** The JSON tokenizer jsmn.c, built without JSMN_STRICT and JSMN_PARENT_LINKS and given a token array. */
module Jsmn {
  import opened Prelude

  datatype Kind = Primitive | Object | Array | String

  datatype Token = Token(kind: Kind, start: int, end: int, size: int)

  const NOMEM := -1
  const INVAL := -2
  const PART := -3

  predicate Container(k: Kind) { k == Object || k == Array }

  predicate Open(t: Token) { t.start != -1 && t.end == -1 }

  // ---------------------------------------------------------------- scanning

  datatype Scan = End(at: nat) | Failed(code: int)

  predicate Delimiter(c: char) {
    c == ':' || c == '\t' || c == '\r' || c == '\n' || c == ' ' || c == ',' || c == ']' || c == '}'
  }

  predicate Ends(js: string, pos: nat) { pos >= |js| || js[pos] == '\0' }

  function ScanPrimitive(js: string, pos: nat): (r: Scan)
    ensures r.End? ==> pos <= r.at && (pos <= |js| ==> r.at <= |js|)
    ensures r.Failed? ==> r.code == INVAL
    decreases |js| - pos
  {
    if Ends(js, pos) || Delimiter(js[pos]) then End(pos)
    else if js[pos] < ' ' || js[pos] as int >= 127 then Failed(INVAL)
    else ScanPrimitive(js, pos + 1)
  }

  predicate Hex(c: char) { '0' <= c <= '9' || 'A' <= c <= 'F' || 'a' <= c <= 'f' }

  predicate Escape(c: char) {
    c == '\"' || c == '/' || c == '\\' || c == 'b' || c == 'f' || c == 'r' || c == 'n' || c == 't'
  }

  /** Up to `n` hexadecimal digits: where they end, or None if something else comes first. */
  function ScanHex(js: string, pos: nat, n: nat): (r: Option<nat>)
    ensures r.Some? ==> pos <= r.value && (pos <= |js| ==> r.value <= |js|)
    decreases n
  {
    if n == 0 || Ends(js, pos) then Some(pos)
    else if Hex(js[pos]) then ScanHex(js, pos + 1, n - 1)
    else None
  }

  /** From behind the opening quote to the closing one. */
  function ScanString(js: string, pos: nat): (r: Scan)
    ensures r.End? ==> pos <= r.at < |js| && js[r.at] == '\"'
    ensures r.Failed? ==> r.code == INVAL || r.code == PART
    decreases |js| - pos
  {
    if Ends(js, pos) then Failed(PART)
    else if js[pos] == '\"' then End(pos)
    else if js[pos] == '\\' && pos + 1 < |js| then
      if Escape(js[pos + 1]) then ScanString(js, pos + 2)
      else if js[pos + 1] == 'u' then
        match ScanHex(js, pos + 2, 4)
        case None => Failed(INVAL)
        case Some(q) => ScanString(js, q)
      else Failed(INVAL)
    else ScanString(js, pos + 1)
  }

  // ---------------------------------------------------------------- the parser as a function

  /** The tokens allocated so far, toksuper and the count that jsmn_parse returns; `roots` counts the tokens
      allocated while toksuper was -1. */
  datatype State = State(pos: nat, toks: seq<Token>, super: int, count: nat, roots: nat)

  const START := State(0, [], -1, 0, 0)

  predicate Wf(s: State) { -1 <= s.super < |s.toks| }

  function LastOpen(toks: seq<Token>): (i: int)
    ensures -1 <= i < |toks|
    ensures i >= 0 ==> Open(toks[i])
    ensures forall j :: i < j < |toks| ==> !Open(toks[j])
  {
    if toks == [] then -1
    else if Open(toks[|toks| - 1]) then |toks| - 1
    else LastOpen(toks[..|toks| - 1])
  }

  /** `tokens[i].size++` unless `i` is -1. */
  function Bump(toks: seq<Token>, i: int): (r: seq<Token>)
    requires -1 <= i < |toks|
    ensures |r| == |toks|
    ensures forall j :: 0 <= j < |toks| && j != i ==> r[j] == toks[j]
    ensures i >= 0 ==> r[i] == toks[i].(size := toks[i].size + 1)
  {
    if i == -1 then toks else toks[i := toks[i].(size := toks[i].size + 1)]
  }

  datatype Outcome = Next(s: State) | Stop(code: int)

  function AddToken(s: State, num: nat, t: Token, pos: nat): Outcome
    requires Wf(s)
  {
    if |s.toks| >= num then Stop(NOMEM)
    else Next(State(pos, Bump(s.toks, s.super) + [t], s.super, s.count + 1, s.roots + if s.super == -1 then 1 else 0))
  }

  function KindOf(c: char): Kind { if c == '{' || c == '}' then Object else Array }

  /** One turn of the loop of jsmn_parse. */
  function Step(js: string, num: nat, s: State): (r: Outcome)
    requires Wf(s) && s.pos < |js| && js[s.pos] != '\0'
    ensures r.Next? ==> Wf(r.s) && s.pos < r.s.pos <= |js| && |s.toks| <= |r.s.toks|
    ensures r.Stop? ==> r.code < 0
  {
    var c := js[s.pos];
    if c == '{' || c == '[' then
      match AddToken(s, num, Token(KindOf(c), s.pos, -1, 0), s.pos + 1)
      case Stop(code) => Stop(code)
      case Next(t) => Next(t.(super := |s.toks|))
    else if c == '}' || c == ']' then
      var i := LastOpen(s.toks);
      if i == -1 || s.toks[i].kind != KindOf(c) then Stop(INVAL)
      else
        var toks := s.toks[i := s.toks[i].(end := s.pos + 1)];
        Next(s.(pos := s.pos + 1, toks := toks, super := LastOpen(toks)))
    else if c == '\"' then
      match ScanString(js, s.pos + 1)
      case Failed(code) => Stop(code)
      case End(q) => AddToken(s, num, Token(String, s.pos + 1, q, 0), q + 1)
    else if c == '\t' || c == '\r' || c == '\n' || c == ' ' then Next(s.(pos := s.pos + 1))
    else if c == ':' then Next(s.(pos := s.pos + 1, super := |s.toks| - 1))
    else if c == ',' then
      var open := LastOpen(s.toks);
      if s.super != -1 && !Container(s.toks[s.super].kind) && open != -1 then
        Next(s.(pos := s.pos + 1, super := open))
      else Next(s.(pos := s.pos + 1))
    else
      match ScanPrimitive(js, s.pos)
      case Failed(code) => Stop(code)
      case End(q) =>
        assert q == ScanPrimitive(js, s.pos + 1).at;
        AddToken(s, num, Token(Primitive, s.pos, q, 0), q)
  }

  /** jsmn_parse from a state: the state it leaves and what it returns. */
  function Run(js: string, num: nat, s: State): (r: (State, int))
    requires Wf(s)
    ensures Wf(r.0)
    decreases |js| - s.pos
  {
    if Ends(js, s.pos) then (s, if LastOpen(s.toks) == -1 then s.count else PART)
    else
      match Step(js, num, s)
      case Stop(code) => (s, code)
      case Next(t) => Run(js, num, t)
  }

  // ---------------------------------------------------------------- what holds on any input

  /** A token's span in the text, with the characters at its ends. */
  ghost predicate Spans(js: string, pos: nat, t: Token) {
    && 0 <= t.start <= pos <= |js|
    && (t.end == -1 ==> Container(t.kind))
    && (t.end != -1 ==> t.start <= t.end <= pos)
    && (Container(t.kind) ==>
          && t.start < pos && js[t.start] == (if t.kind == Object then '{' else '[')
          && (t.end != -1 ==> t.start < t.end && js[t.end - 1] == if t.kind == Object then '}' else ']'))
    && (t.kind == String ==> 0 < t.start && t.end < pos && js[t.start - 1] == '\"' && js[t.end] == '\"')
    && (t.kind == Primitive ==> t.start < t.end)
  }

  /** Disjoint, or the later one inside the earlier one. */
  ghost predicate Apart(t: Token, u: Token) {
    t.start < u.start && (t.end != -1 ==> t.end <= u.start || (u.end != -1 && u.end <= t.end))
  }

  function Sizes(toks: seq<Token>): int {
    if toks == [] then 0 else Sizes(toks[..|toks| - 1]) + toks[|toks| - 1].size
  }

  ghost predicate Inv(js: string, s: State) {
    && Wf(s) && s.pos <= |js|
    && (forall i :: 0 <= i < |s.toks| ==> Spans(js, s.pos, s.toks[i]))
    && (forall i, j :: 0 <= i < j < |s.toks| ==> Apart(s.toks[i], s.toks[j]))
    && (s.super == -1 ==> LastOpen(s.toks) == -1)
    && s.count == |s.toks| == Sizes(s.toks) + s.roots
  }

  lemma {:induction false} SizesUpdate(toks: seq<Token>, i: nat, t: Token)
    requires i < |toks|
    ensures Sizes(toks[i := t]) == Sizes(toks) + t.size - toks[i].size
  {
    var n := |toks| - 1;
    if i < n {
      SizesUpdate(toks[..n], i, t);
      assert toks[i := t][..n] == toks[..n][i := t];
    } else {
      assert toks[i := t][..n] == toks[..n];
    }
  }

  lemma SizesBump(toks: seq<Token>, i: int, t: Token)
    requires -1 <= i < |toks|
    ensures Sizes(Bump(toks, i) + [t]) == Sizes(toks) + t.size + if i == -1 then 0 else 1
  {
    var u := Bump(toks, i);
    assert (u + [t])[..|u|] == u;
    if i >= 0 {
      SizesUpdate(toks, i, toks[i].(size := toks[i].size + 1));
    }
  }

  lemma LastOpenSame(toks: seq<Token>, more: seq<Token>)
    requires |toks| == |more| && forall i :: 0 <= i < |toks| ==> Open(toks[i]) == Open(more[i])
    ensures LastOpen(toks) == LastOpen(more)
  {
  }

  lemma BumpOpen(toks: seq<Token>, i: int)
    requires -1 <= i < |toks|
    ensures LastOpen(Bump(toks, i)) == LastOpen(toks)
  {
    LastOpenSame(toks, Bump(toks, i));
  }

  lemma LastOpenAppend(toks: seq<Token>, t: Token)
    ensures LastOpen(toks + [t]) == if Open(t) then |toks| else LastOpen(toks)
  {
    assert (toks + [t])[..|toks|] == toks;
  }

  /** What a new token must satisfy. */
  ghost predicate Fresh(js: string, pos: nat, t: Token, next: nat) {
    pos <= t.start && pos < next && Spans(js, next, t) && t.size == 0
  }

  lemma AddInv(js: string, num: nat, s: State, t: Token, next: nat)
    requires Inv(js, s) && |s.toks| < num && Fresh(js, s.pos, t, next) && next <= |js|
    ensures AddToken(s, num, t, next).Next?
    ensures !Open(t) ==> Inv(js, AddToken(s, num, t, next).s)
    ensures Open(t) ==> Inv(js, AddToken(s, num, t, next).s.(super := |s.toks|))
  {
    hide Sizes, Open, LastOpen;
    var u := AddToken(s, num, t, next).s;
    SizesBump(s.toks, s.super, t);
    BumpOpen(s.toks, s.super);
    LastOpenAppend(Bump(s.toks, s.super), t);
    forall i | 0 <= i < |u.toks| ensures Spans(js, next, u.toks[i]) {
      if i < |s.toks| {
        assert Spans(js, s.pos, s.toks[i]);
      }
    }
    forall i, j | 0 <= i < j < |u.toks| ensures Apart(u.toks[i], u.toks[j]) {
      assert Spans(js, s.pos, s.toks[i]);
      if j < |s.toks| {
        assert Apart(s.toks[i], s.toks[j]);
      }
    }
  }

  lemma CloseInv(js: string, s: State, i: nat)
    requires Inv(js, s) && s.pos < |js| && i == LastOpen(s.toks)
    requires js[s.pos] == (if s.toks[i].kind == Object then '}' else ']')
    ensures var toks := s.toks[i := s.toks[i].(end := s.pos + 1)];
            Inv(js, s.(pos := s.pos + 1, toks := toks, super := LastOpen(toks)))
  {
    hide Sizes;
    var t := s.toks[i].(end := s.pos + 1);
    var toks := s.toks[i := t];
    SizesUpdate(s.toks, i, t);
    forall j | 0 <= j < |toks| ensures Spans(js, s.pos + 1, toks[j]) {
      assert Spans(js, s.pos, s.toks[j]);
    }
    forall j, k | 0 <= j < k < |toks| ensures Apart(toks[j], toks[k]) {
      assert Apart(s.toks[j], s.toks[k]);
      assert Spans(js, s.pos, s.toks[k]);
    }
  }

  lemma MoveInv(js: string, s: State, super: int)
    requires Inv(js, s) && s.pos < |js| && -1 <= super < |s.toks| && (super == -1 ==> LastOpen(s.toks) == -1)
    ensures Inv(js, s.(pos := s.pos + 1, super := super))
  {
    hide Sizes, LastOpen;
    forall j | 0 <= j < |s.toks| ensures Spans(js, s.pos + 1, s.toks[j]) {
      assert Spans(js, s.pos, s.toks[j]);
    }
  }

  lemma StepInv(js: string, num: nat, s: State)
    requires Inv(js, s) && s.pos < |js| && js[s.pos] != '\0'
    ensures Step(js, num, s).Next? ==> Inv(js, Step(js, num, s).s)
  {
    hide Inv, LastOpen, ScanString, ScanPrimitive;
    InvFacts(js, s);
    var c := js[s.pos];
    if c == '{' || c == '[' {
      if |s.toks| < num {
        AddInv(js, num, s, Token(KindOf(c), s.pos, -1, 0), s.pos + 1);
      }
    } else if c == '}' || c == ']' {
      var i := LastOpen(s.toks);
      if i != -1 && s.toks[i].kind == KindOf(c) {
        CloseInv(js, s, i);
      }
    } else if c == '"' {
      match ScanString(js, s.pos + 1)
      case Failed(_) =>
      case End(q) =>
        if |s.toks| < num {
          AddInv(js, num, s, Token(String, s.pos + 1, q, 0), q + 1);
        }
    } else if Delimiter(c) {
      MoveInv(js, s, Step(js, num, s).s.super);
    } else {
      match ScanPrimitive(js, s.pos)
      case Failed(_) =>
      case End(q) =>
        PrimitiveGoesOn(js, s.pos);
        if |s.toks| < num {
          AddInv(js, num, s, Token(Primitive, s.pos, q, 0), q);
        }
    }
  }

  lemma PrimitiveGoesOn(js: string, pos: nat)
    requires pos < |js| && js[pos] != '\0' && !Delimiter(js[pos])
    ensures ScanPrimitive(js, pos).End? ==> pos < ScanPrimitive(js, pos).at <= |js|
  {
  }

  lemma InvFacts(js: string, s: State)
    requires Inv(js, s)
    ensures Wf(s) && s.pos <= |js| && (s.super == -1 ==> LastOpen(s.toks) == -1)
    ensures forall i :: 0 <= i < |s.toks| && Open(s.toks[i]) ==> Container(s.toks[i].kind)
  {
  }

  lemma {:induction false} RunInv(js: string, num: nat, s: State)
    requires Inv(js, s)
    ensures Inv(js, Run(js, num, s).0)
    ensures Run(js, num, s).1 >= 0 ==>
              Run(js, num, s).1 == Run(js, num, s).0.count && LastOpen(Run(js, num, s).0.toks) == -1
    decreases |js| - s.pos
  {
    hide Inv, Step, LastOpen;
    InvFacts(js, s);
    if !Ends(js, s.pos) {
      StepInv(js, num, s);
      match Step(js, num, s)
      case Stop(_) =>
      case Next(t) => RunInv(js, num, t);
    }
  }

  /** Any input at all: when a fresh parse succeeds it returns the number of tokens; every token is closed and lies
      in the text with its own brackets or quotes at its ends, any two are disjoint or nested, and each token is
      counted in one size, except those without a superior. */
  lemma AnyInput(js: string, num: nat)
    requires Run(js, num, START).1 >= 0
    ensures var (s, r) := Run(js, num, START);
            && r == |s.toks| <= num && s.pos <= |js|
            && (forall i :: 0 <= i < |s.toks| ==> s.toks[i].end != -1 && Spans(js, s.pos, s.toks[i]))
            && (forall i, j :: 0 <= i < j < |s.toks| ==> Apart(s.toks[i], s.toks[j]))
            && Sizes(s.toks) + s.roots == |s.toks|
  {
    hide Run, Sizes;
    StartInv(js);
    RunInv(js, num, START);
    RunRoom(js, num, START);
    var s := Run(js, num, START).0;
    forall i | 0 <= i < |s.toks| ensures s.toks[i].end != -1 {
      assert Spans(js, s.pos, s.toks[i]) && !Open(s.toks[i]);
    }
  }

  lemma StartInv(js: string)
    ensures Inv(js, START)
  {
  }

  lemma {:induction false} RunRoom(js: string, num: nat, s: State)
    requires Wf(s) && |s.toks| <= num
    ensures |Run(js, num, s).0.toks| <= num
    decreases |js| - s.pos
  {
    if !Ends(js, s.pos) {
      match Step(js, num, s)
      case Stop(_) =>
      case Next(t) => RunRoom(js, num, t);
    }
  }
}
