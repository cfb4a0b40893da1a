/** Topic filters (isTopicMatched in MQTTClient.c). */
module TopicFilter {

  // ---------------------------------------------------------------- the character loop

  /** Where the level that starts at the front of `n` ends; its first character is never looked at. */
  function LevelEnd(n: string): (k: nat)
    requires n != ""
    ensures 1 <= k <= |n| && (k < |n| ==> n[k] == '/') && forall i :: 1 <= i < k ==> n[i] != '/'
  {
    FirstSlash(n, 1)
  }

  function FirstSlash(n: string, from: nat): (k: nat)
    requires from <= |n|
    ensures from <= k <= |n| && (k < |n| ==> n[k] == '/') && forall i :: from <= i < k ==> n[i] != '/'
    decreases |n| - from
  {
    if from == |n| || n[from] == '/' then from else FirstSlash(n, from + 1)
  }

  /** What the loop says of what is left of the filter and the name. */
  predicate Loop(f: string, n: string)
    decreases |f|
  {
    if f == "" || n == "" then f == "" && n == ""
    else if n[0] == '/' && f[0] != '/' then false
    else if f[0] != '+' && f[0] != '#' && f[0] != n[0] then false
    else if f[0] == '+' then Loop(f[1..], n[LevelEnd(n)..])
    else if f[0] == '#' then Loop(f[1..], "")
    else Loop(f[1..], n[1..])
  }

  /** `isTopicMatched`. */
  method IsTopicMatched(topicFilter: string, topicName: string) returns (matched: bool)
    ensures matched == Loop(topicFilter, topicName)
  {
    var curf, curn := 0, 0;
    var broken := false;
    while curf < |topicFilter| && curn < |topicName|
      invariant 0 <= curf <= |topicFilter| && 0 <= curn <= |topicName|
      invariant Loop(topicFilter, topicName) == Loop(topicFilter[curf..], topicName[curn..])
    {
      if topicName[curn] == '/' && topicFilter[curf] != '/' {
        break;
      }
      if topicFilter[curf] != '+' && topicFilter[curf] != '#' && topicFilter[curf] != topicName[curn] {
        break;
      }
      ghost var rest := topicName[curn..];
      if topicFilter[curf] == '+' {
        ghost var start := curn;
        var nextpos := curn + 1;
        while nextpos < |topicName| && topicName[nextpos] != '/'
          invariant start < nextpos == curn + 1 <= |topicName|
          invariant FirstSlash(rest, 1) == FirstSlash(rest, nextpos - start)
        {
          curn := curn + 1;
          nextpos := curn + 1;
        }
        assert rest[LevelEnd(rest)..] == topicName[curn + 1..];
      } else if topicFilter[curf] == '#' {
        curn := |topicName| - 1;
        assert topicName[curn + 1..] == "";
      }
      assert topicFilter[curf..][1..] == topicFilter[curf + 1..];
      curf := curf + 1;
      curn := curn + 1;
    }
    return curn == |topicName| && curf == |topicFilter|;
  }

  // ---------------------------------------------------------------- levels

  predicate Plain(level: string) { forall i :: 0 <= i < |level| ==> level[i] != '/' }

  predicate Literal(level: string) {
    Plain(level) && forall i :: 0 <= i < |level| ==> level[i] != '+' && level[i] != '#'
  }

  predicate Name(levels: seq<string>) { levels != [] && forall i :: 0 <= i < |levels| ==> Plain(levels[i]) }

  /** A wildcard stands for a whole level, and # for the last one. */
  predicate Filter(levels: seq<string>) {
    && levels != []
    && forall i :: 0 <= i < |levels| ==>
         levels[i] == "+" || Literal(levels[i]) || (levels[i] == "#" && i == |levels| - 1)
  }

  function Text(levels: seq<string>): string
    requires levels != []
  {
    levels[0] + Rest(levels[1..])
  }

  function Rest(levels: seq<string>): string
    decreases |levels|
  {
    if levels == [] then "" else "/" + levels[0] + Rest(levels[1..])
  }

  /** Section 4.7.1 of MQTT 3.1.1: + is one level, # is any number of levels, the parent level included. */
  predicate Standard(f: seq<string>, n: seq<string>) {
    if f == [] then n == []
    else if f == ["#"] then true
    else n != [] && (f[0] == "+" || f[0] == n[0]) && Standard(f[1..], n[1..])
  }

  /** The loop across one literal level. */
  lemma {:induction false} AcrossLiteral(a: string, f: string, b: string, n: string)
    requires forall i :: 0 <= i < |a| ==> a[i] != '/' && a[i] != '+' && a[i] != '#'
    requires forall i :: 0 <= i < |b| ==> b[i] != '/'
    requires (f == "" || f[0] == '/') && (n == "" || n[0] == '/')
    ensures Loop(a + f, b + n) == (a == b && Loop(f, n))
    decreases |a|
  {
    if a == "" || b == "" {
      assert "" + f == f && "" + n == n;
    } else if a[0] == b[0] {
      assert (a + f)[1..] == a[1..] + f && (b + n)[1..] == b[1..] + n;
      AcrossLiteral(a[1..], f, b[1..], n);
      assert a == [a[0]] + a[1..] && b == [b[0]] + b[1..];
    }
  }

  lemma AcrossPlus(f: string, b: string, n: string)
    requires Plain(b) && (n == "" || n[0] == '/')
    ensures Loop("+" + f, b + n) == (b != "" && Loop(f, n))
  {
    if b == "" {
      assert b + n == n && ("+" + f)[0] == '+';
      return;
    }
    var s := b + n;
    assert |b| < |s| ==> s[|b|] == n[0];
    SlashAt(s, 1, |b|);
    assert s[|b|..] == n && ("+" + f)[1..] == f;
  }

  lemma SlashAt(s: string, from: nat, k: nat)
    requires from <= k <= |s| && (k < |s| ==> s[k] == '/') && forall i :: from <= i < k ==> s[i] != '/'
    ensures FirstSlash(s, from) == k
    decreases k - from
  {
  }

  lemma RestIsText(f: seq<string>)
    requires f != []
    ensures Rest(f) == "/" + Text(f)
  {
  }

  lemma AcrossSlash(f: string, n: string)
    ensures Loop("/" + f, "/" + n) == Loop(f, n)
    ensures !Loop("/" + f, "") && !Loop("", "/" + n)
  {
    assert ("/" + f)[1..] == f && ("/" + n)[1..] == n;
  }

  /** The rests start with separators that the loop steps over. */
  lemma AcrossRest(f: seq<string>, n: seq<string>)
    ensures f == [] || n == [] ==> Loop(Rest(f), Rest(n)) == (f == [] && n == [])
    ensures f != [] && n != [] ==> Loop(Rest(f), Rest(n)) == Loop(Text(f), Text(n))
  {
    if f != [] {
      RestIsText(f);
      AcrossSlash(Text(f), "");
    }
    if n != [] {
      RestIsText(n);
      AcrossSlash(if f == [] then "" else Text(f), Text(n));
    }
  }

  /** The wildcard levels of the filter stand for levels of the name that are there and not empty. */
  predicate WildcardsFilled(f: seq<string>, n: seq<string>) {
    forall i :: 0 <= i < |f| && (f[i] == "+" || f[i] == "#") ==> i < |n| && n[i] != ""
  }

  lemma FilledRest(f: seq<string>, n: seq<string>)
    requires f != [] && n != []
    ensures WildcardsFilled(f, n)
       <==> (f[0] == "+" || f[0] == "#" ==> n[0] != "") && WildcardsFilled(f[1..], n[1..])
  {
    if WildcardsFilled(f[1..], n[1..]) && (f[0] == "+" || f[0] == "#" ==> n[0] != "") {
      forall i | 0 <= i < |f| && (f[i] == "+" || f[i] == "#") ensures i < |n| && n[i] != "" {
        assert i > 0 ==> f[1..][i - 1] == f[i];
      }
    }
    if WildcardsFilled(f, n) {
      forall i | 0 <= i < |f| - 1 && (f[1..][i] == "+" || f[1..][i] == "#") ensures i < |n| - 1 && n[1..][i] != "" {
        assert f[1..][i] == f[i + 1];
      }
    }
  }

  /** Exactly the names the standard accepts match, but that a wildcard takes no empty level and # not the
      parent level. */
  lemma {:induction false} MatchesLevels(f: seq<string>, n: seq<string>)
    requires Filter(f) && Name(n)
    ensures Loop(Text(f), Text(n)) <==> Standard(f, n) && WildcardsFilled(f, n)
    decreases |f|
  {
    hide Loop, WildcardsFilled;
    AcrossRest(f[1..], n[1..]);
    FilledRest(f, n);
    if f[0] == "#" {
      assert !Literal(f[0]) && f[0] != "+" by {
        assert f[0][0] == '#';
      }
      assert f == ["#"];
      HashTakes(n[0], Rest(n[1..]));
      NothingToFill(n[1..]);
    } else {
      if f[0] == "+" {
        AcrossPlus(Rest(f[1..]), n[0], Rest(n[1..]));
      } else {
        AcrossLiteral(f[0], Rest(f[1..]), n[0], Rest(n[1..]));
      }
      if |f| > 1 && |n| > 1 {
        MatchesLevels(f[1..], n[1..]);
      } else if |f| == 1 {
        NothingToFill(n[1..]);
      } else {
        LeftOver(f[1..]);
      }
    }
  }

  lemma NothingToFill(n: seq<string>)
    ensures WildcardsFilled([], n)
  {
  }

  /** Of what is left of a filter behind the last level only # could still match, and it is not filled. */
  lemma LeftOver(f: seq<string>)
    requires f != []
    ensures !(Standard(f, []) && WildcardsFilled(f, []))
  {
    if f == ["#"] {
      assert f[0] == "#";
    }
  }

  lemma HashTakes(level: string, rest: string)
    requires Plain(level) && (rest == "" || rest[0] == '/')
    ensures Loop("#" + "", level + rest) == (level != "")
  {
    assert "#" + "" == "#" && "#"[1..] == "";
    if level == "" {
      assert level + rest == rest;
    }
  }

  /** Without empty levels the parent level of # is the only difference. */
  lemma ParentLevelOnly(f: seq<string>, n: seq<string>)
    requires Filter(f) && Name(n) && forall i :: 0 <= i < |n| ==> n[i] != ""
    ensures Loop(Text(f), Text(n)) <==> Standard(f, n) && !(f[|f| - 1] == "#" && |n| == |f| - 1)
  {
    MatchesLevels(f, n);
    if Standard(f, n) {
      EnoughLevels(f, n);
    }
  }

  lemma {:induction false} EnoughLevels(f: seq<string>, n: seq<string>)
    requires f != [] && Standard(f, n)
    ensures |n| >= |f| || (|n| == |f| - 1 && f[|f| - 1] == "#")
    decreases |f|
  {
    if |f| > 1 {
      EnoughLevels(f[1..], n[1..]);
    }
  }
}
