/** The functions of jsmn.c on the parser structure and the caller's token array. */
module JsmnParser {
  import opened Jsmn

  ghost predicate OpenContainers(toks: seq<Token>) {
    forall i :: 0 <= i < |toks| && Open(toks[i]) ==> Container(toks[i].kind)
  }

  class Parser {
    var pos: nat
    var toknext: nat
    var toksuper: int

    /** `jsmn_init`. */
    constructor ()
      ensures pos == 0 && toknext == 0 && toksuper == -1
    {
      pos, toknext, toksuper := 0, 0, -1;
    }

    ghost predicate Valid(tokens: array<Token>)
      reads this, tokens
    {
      toknext <= tokens.Length && -1 <= toksuper < toknext && OpenContainers(tokens[..toknext])
    }

    ghost function View(tokens: array<Token>, count: nat, roots: nat): State
      reads this, tokens
      requires toknext <= tokens.Length
    {
      State(pos, tokens[..toknext], toksuper, count, roots)
    }

    /** `jsmn_alloc_token`: the index of the token, -1 for NULL. */
    method AllocToken(tokens: array<Token>, num: nat) returns (i: int)
      requires num <= tokens.Length
      modifies this`toknext, tokens
      ensures old(toknext) >= num ==> i == -1 && toknext == old(toknext) && tokens[..] == old(tokens[..])
      ensures old(toknext) < num ==>
                && i == old(toknext) && toknext == i + 1
                && tokens[..] == old(tokens[..])[i := old(tokens[i]).(start := -1, end := -1, size := 0)]
    {
      if toknext >= num {
        return -1;
      }
      i := toknext;
      toknext := toknext + 1;
      tokens[i] := tokens[i].(start := -1, end := -1, size := 0);
    }

    /** A new token is allocated and filled, or there is no room. */
    method NewToken(tokens: array<Token>, num: nat, kind: Kind, start: nat, end: nat) returns (ok: bool)
      requires num <= tokens.Length
      modifies this`toknext, tokens
      ensures ok <==> old(toknext) < num
      ensures !ok ==> toknext == old(toknext) && tokens[..] == old(tokens[..])
      ensures ok ==> toknext == old(toknext) + 1
                     && tokens[..] == old(tokens[..])[old(toknext) := Token(kind, start, end, 0)]
    {
      var i := AllocToken(tokens, num);
      ok := i != -1;
      if ok {
        tokens[i] := Token(kind, start, end, 0);
      }
    }

    /** `jsmn_parse_primitive`. */
    method ParsePrimitive(js: string, tokens: array<Token>, num: nat) returns (r: int)
      requires num <= tokens.Length && !Ends(js, pos) && !Delimiter(js[pos])
      modifies this`pos, this`toknext, tokens
      ensures match ScanPrimitive(js, old(pos))
              case Failed(code) =>
                r == code && pos == old(pos) && toknext == old(toknext) && tokens[..] == old(tokens[..])
              case End(q) =>
                if old(toknext) >= num then
                  r == NOMEM && pos == old(pos) && toknext == old(toknext) && tokens[..] == old(tokens[..])
                else
                  && r == 0 && pos == q - 1 && toknext == old(toknext) + 1
                  && tokens[..] == old(tokens[..])[old(toknext) := Token(Primitive, old(pos), q, 0)]
    {
      var start := pos;
      while pos < |js| && js[pos] != '\0'
        invariant start <= pos <= |js| && ScanPrimitive(js, pos) == ScanPrimitive(js, start)
        invariant pos == start ==> !Ends(js, pos) && !Delimiter(js[pos])
        invariant toknext == old(toknext) && tokens[..] == old(tokens[..])
        decreases |js| - pos
      {
        if Delimiter(js[pos]) {
          break;
        }
        if js[pos] as int < 32 || js[pos] as int >= 127 {
          pos := start;
          return INVAL;
        }
        pos := pos + 1;
      }
      assert ScanPrimitive(js, start) == End(pos);
      var ok := NewToken(tokens, num, Primitive, start, pos);
      if !ok {
        pos := start;
        return NOMEM;
      }
      pos := pos - 1;
      return 0;
    }

    /** `jsmn_parse_string`, entered at the opening quote. */
    method ParseString(js: string, tokens: array<Token>, num: nat) returns (r: int)
      requires num <= tokens.Length && pos < |js|
      modifies this`pos, this`toknext, tokens
      ensures match ScanString(js, old(pos) + 1)
              case Failed(code) =>
                r == code && pos == old(pos) && toknext == old(toknext) && tokens[..] == old(tokens[..])
              case End(q) =>
                if old(toknext) >= num then
                  r == NOMEM && pos == old(pos) && toknext == old(toknext) && tokens[..] == old(tokens[..])
                else
                  && r == 0 && pos == q && toknext == old(toknext) + 1
                  && tokens[..] == old(tokens[..])[old(toknext) := Token(String, old(pos) + 1, q, 0)]
    {
      var start := pos;
      pos := pos + 1;
      while pos < |js| && js[pos] != '\0'
        invariant start < pos <= |js| && ScanString(js, pos) == ScanString(js, start + 1)
        invariant toknext == old(toknext) && tokens[..] == old(tokens[..])
        decreases |js| - pos
      {
        var c := js[pos];
        if c == '\"' {
          var ok := NewToken(tokens, num, String, start + 1, pos);
          if !ok {
            pos := start;
            return NOMEM;
          }
          return 0;
        }
        if c == '\\' && pos + 1 < |js| {
          pos := pos + 1;
          if Escape(js[pos]) {
          } else if js[pos] == 'u' {
            var ok := SkipHex(js);
            if !ok {
              pos := start;
              return INVAL;
            }
          } else {
            pos := start;
            return INVAL;
          }
        }
        pos := pos + 1;
      }
      pos := start;
      return PART;
    }

    /** The digits behind \u; `pos` ends up on the last of them. */
    method SkipHex(js: string) returns (ok: bool)
      requires pos < |js|
      modifies this`pos
      ensures match ScanHex(js, old(pos) + 1, 4)
              case None => !ok
              case Some(q) => ok && pos == q - 1
    {
      pos := pos + 1;
      var i := 0;
      while i < 4 && pos < |js| && js[pos] != '\0'
        invariant 0 <= i <= 4 && old(pos) < pos <= |js|
        invariant ScanHex(js, pos, 4 - i) == ScanHex(js, old(pos) + 1, 4)
      {
        if !Hex(js[pos]) {
          return false;
        }
        pos := pos + 1;
        i := i + 1;
      }
      pos := pos - 1;
      return true;
    }

    /** The superior token, if any, counts one more. */
    method BumpSuper(tokens: array<Token>, super: int, n: nat)
      requires -1 <= super < n <= tokens.Length
      modifies tokens
      ensures tokens[..n] == Bump(old(tokens[..n]), super)
    {
      if super != -1 {
        tokens[super] := tokens[super].(size := tokens[super].size + 1);
      }
    }

    /** The cases of the opening brackets. */
    method OpenBracket(c: char, tokens: array<Token>, num: nat) returns (r: int)
      requires Valid(tokens) && num <= tokens.Length
      modifies this`toknext, this`toksuper, tokens
      ensures if old(toknext) >= num then
                r == NOMEM && toknext == old(toknext) && toksuper == old(toksuper) && tokens[..] == old(tokens[..])
              else
                && r == 0 && toknext == old(toknext) + 1 && toksuper == old(toknext)
                && tokens[..toknext] == Bump(old(tokens[..toknext]), old(toksuper)) + [Token(KindOf(c), pos, -1, 0)]
    {
      var i := AllocToken(tokens, num);
      if i == -1 {
        return NOMEM;
      }
      BumpSuper(tokens, toksuper, i);
      tokens[i] := Token(KindOf(c), pos, -1, 0);
      toksuper := toknext - 1;
      return 0;
    }

    /** The cases of the closing brackets: the last open container must be of this kind. */
    method CloseBracket(c: char, tokens: array<Token>) returns (r: int)
      requires Valid(tokens)
      modifies this`toksuper, tokens
      ensures var toks := old(tokens[..toknext]);
              var i := LastOpen(toks);
              if i == -1 || toks[i].kind != KindOf(c) then
                r == INVAL && toksuper == old(toksuper) && tokens[..] == old(tokens[..])
              else
                && r == 0 && tokens[..toknext] == toks[i := toks[i].(end := pos + 1)]
                && toksuper == LastOpen(tokens[..toknext])
    {
      var i := toknext - 1;
      ghost var toks := tokens[..toknext];
      while i >= 0
        invariant -1 <= i < toknext && toksuper == old(toksuper) && tokens[..] == old(tokens[..])
        invariant forall j :: i < j < toknext ==> !Open(tokens[j])
      {
        if Open(tokens[i]) {
          break;
        }
        i := i - 1;
      }
      OpenIs(toks, i);
      if i == -1 {
        return INVAL;
      }
      if tokens[i].kind != KindOf(c) {
        return INVAL;
      }
      toksuper := -1;
      tokens[i] := tokens[i].(end := pos + 1);
      ghost var closed := tokens[..toknext];
      while i >= 0
        modifies this`toksuper
        invariant -1 <= i < toknext && toksuper == -1
        invariant forall j :: i < j < toknext ==> !Open(tokens[j])
      {
        if Open(tokens[i]) {
          toksuper := i;
          break;
        }
        i := i - 1;
      }
      OpenIs(closed, i);
      return 0;
    }

    /** The case of the comma; with no superior there is no open container either, and nothing is looked up. */
    method Comma(tokens: array<Token>)
      requires Valid(tokens)
      modifies this`toksuper
      ensures var open := LastOpen(tokens[..toknext]);
              toksuper == if old(toksuper) != -1 && !Container(tokens[old(toksuper)].kind) && open != -1 then open
                          else old(toksuper)
    {
      if toksuper != -1 && tokens[toksuper].kind != Array && tokens[toksuper].kind != Object {
        var i := toknext - 1;
        while i >= 0
          invariant -1 <= i < toknext && toksuper == old(toksuper)
          invariant forall j :: i < j < toknext ==> !Open(tokens[j])
        {
          if tokens[i].kind == Array || tokens[i].kind == Object {
            if Open(tokens[i]) {
              toksuper := i;
              break;
            }
          }
          assert !Open(tokens[..toknext][i]);
          i := i - 1;
        }
        OpenIs(tokens[..toknext], i);
      }
    }

    /** The body of the loop of jsmn_parse, before its `pos++`. */
    method Turn(js: string, tokens: array<Token>, num: nat, ghost count: nat, ghost roots: nat)
      returns (r: int, counted: bool)
      requires Valid(tokens) && num <= tokens.Length && !Ends(js, pos)
      modifies this, tokens
      ensures var o := Step(js, num, old(View(tokens, count, roots)));
              if o.Stop? then
                r == o.code && toknext == old(toknext) && View(tokens, count, roots) == old(View(tokens, count, roots))
              else
                && r == 0 && toknext <= tokens.Length && pos == o.s.pos - 1
                && o.s.count == count + (if counted then 1 else 0)
                && toksuper == o.s.super && tokens[..toknext] == o.s.toks
    {
      hide ScanString, ScanPrimitive, LastOpen, OpenContainers;
      var c := js[pos];
      counted := false;
      if c == '{' || c == '[' {
        counted := true;
        r := OpenBracket(c, tokens, num);
      } else if c == '}' || c == ']' {
        r := CloseBracket(c, tokens);
      } else if c == '"' {
        r := ParseString(js, tokens, num);
        if r >= 0 {
          counted := true;
          CountLeaf(tokens, old(tokens[..]));
        }
      } else if c == '\t' || c == '\r' || c == '\n' || c == ' ' {
        r := 0;
      } else if c == ':' {
        toksuper := toknext - 1;
        r := 0;
      } else if c == ',' {
        Comma(tokens);
        r := 0;
      } else {
        r := ParsePrimitive(js, tokens, num);
        if r >= 0 {
          counted := true;
          CountLeaf(tokens, old(tokens[..]));
        }
      }
    }

    /** A new string or primitive counts in its superior. */
    method CountLeaf(tokens: array<Token>, ghost before: seq<Token>)
      requires 1 <= toknext <= tokens.Length == |before| && -1 <= toksuper < toknext - 1
      requires tokens[..] == before[toknext - 1 := tokens[toknext - 1]]
      modifies tokens
      ensures tokens[..toknext] == Bump(before[..toknext - 1], toksuper) + [old(tokens[toknext - 1])]
    {
      assert tokens[..toknext] == before[..toknext - 1] + [tokens[toknext - 1]];
      BumpSuper(tokens, toksuper, toknext);
    }

    /** `jsmn_parse` with a token array. */
    method Parse(js: string, tokens: array<Token>, num: nat) returns (r: int)
      requires Valid(tokens) && num <= tokens.Length
      modifies this, tokens
      ensures var (s, code) := Run(js, num, old(View(tokens, 0, 0)));
              && toknext <= tokens.Length && r == code
              && pos == s.pos && tokens[..toknext] == s.toks && toksuper == s.super
    {
      hide Step, Run, LastOpen, OpenContainers;
      var count := 0;
      ghost var roots := 0;
      while pos < |js| && js[pos] != '\0'
        invariant Valid(tokens) && Run(js, num, View(tokens, count, roots)) == Run(js, num, old(View(tokens, 0, 0)))
        decreases |js| - pos
      {
        ghost var s := View(tokens, count, roots);
        RunStep(js, num, s);
        KeepsContainers(js, num, s);
        var counted;
        r, counted := Turn(js, tokens, num, count, roots);
        if r < 0 {
          return;
        }
        if counted {
          count := count + 1;
        }
        roots := Step(js, num, s).s.roots;
        pos := pos + 1;
      }
      RunEnd(js, num, View(tokens, count, roots));
      var i := toknext - 1;
      while i >= 0
        invariant -1 <= i < toknext
        invariant forall j :: i < j < toknext ==> !Open(tokens[j])
      {
        if Open(tokens[i]) {
          OpenIs(tokens[..toknext], i);
          return PART;
        }
        i := i - 1;
      }
      OpenIs(tokens[..toknext], -1);
      return count;
    }
  }

  lemma RunStep(js: string, num: nat, s: State)
    requires Wf(s) && !Ends(js, s.pos)
    ensures var o := Step(js, num, s);
            if o.Stop? then Run(js, num, s) == (s, o.code) && o.code < 0
            else Run(js, num, s) == Run(js, num, o.s) && Wf(o.s) && s.pos < o.s.pos <= |js|
  {
    hide Step;
  }

  lemma RunEnd(js: string, num: nat, s: State)
    requires Wf(s) && Ends(js, s.pos)
    ensures Run(js, num, s) == (s, if LastOpen(s.toks) == -1 then s.count else PART)
  {
  }

  lemma KeepsContainers(js: string, num: nat, s: State)
    requires Wf(s) && !Ends(js, s.pos) && OpenContainers(s.toks)
    ensures Step(js, num, s).Next? ==> OpenContainers(Step(js, num, s).s.toks)
  {
    hide ScanString, ScanPrimitive, LastOpen;
  }

  lemma OpenIs(toks: seq<Token>, i: int)
    requires -1 <= i < |toks| && (i >= 0 ==> Open(toks[i])) && forall j :: i < j < |toks| ==> !Open(toks[j])
    ensures LastOpen(toks) == i
  {
  }
}
