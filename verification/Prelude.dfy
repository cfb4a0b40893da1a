/** Types shared by the components of the model. */
module Prelude {

  datatype Option<+T> = None | Some(value: T)

  /** An octet held as a number, for code whose arithmetic on octets is arithmetic on integers. */
  type byte = x: int | 0 <= x < 0x100

  type u16 = x: int | 0 <= x < 0x1_0000

  type u32 = x: int | 0 <= x < 0x1_0000_0000

  function Min(a: int, b: int): int { if a < b then a else b }

  /** The pieces one after the other. */
  function Joined<T>(pieces: seq<seq<T>>): seq<T> {
    if pieces == [] then [] else Joined(pieces[..|pieces| - 1]) + pieces[|pieces| - 1]
  }

  lemma JoinedStep<T>(pieces: seq<seq<T>>, i: nat)
    requires i < |pieces|
    ensures Joined(pieces[..i + 1]) == Joined(pieces[..i]) + pieces[i]
  {
    assert pieces[..i + 1][..i] == pieces[..i];
  }

  /** The text stands at `pos`. */
  ghost predicate Here<T>(s: seq<T>, pos: nat, text: seq<T>) {
    pos + |text| <= |s| && s[pos..pos + |text|] == text
  }

  lemma HereSplit<T>(s: seq<T>, pos: nat, a: seq<T>, b: seq<T>)
    requires Here(s, pos, a + b)
    ensures Here(s, pos, a) && Here(s, pos + |a|, b)
  {
    var t := s[pos..pos + |a + b|];
    assert t[..|a|] == a && t[|a|..] == b;
    Subrange(s, pos, pos + |a + b|, 0, |a|);
    Subrange(s, pos, pos + |a + b|, |a|, |a + b|);
  }

  lemma HereAt<T>(s: seq<T>, pos: nat, text: seq<T>, i: nat)
    requires Here(s, pos, text) && i < |text|
    ensures pos + i < |s| && s[pos + i] == text[i]
  {
    assert s[pos..pos + |text|][i] == text[i];
  }

  lemma TakeOfSum<T>(a: seq<T>, b: seq<T>, n: nat)
    requires n <= |a| + |b|
    ensures (a + b)[..n] == if n <= |a| then a[..n] else a + b[..n - |a|]
  {
  }

  lemma SplitRange<T>(s: seq<T>, i: nat, j: nat, k: nat)
    requires i <= j <= k <= |s|
    ensures s[i..k] == s[i..j] + s[j..k]
  {
  }

  lemma Subrange<T>(s: seq<T>, a: nat, b: nat, c: nat, d: nat)
    requires a <= b <= |s| && c <= d <= b - a
    ensures s[a..b][c..d] == s[a + c..a + d]
  {
    var x, y := s[a..b][c..d], s[a + c..a + d];
    forall i | 0 <= i < |x| ensures x[i] == y[i] {
      assert x[i] == s[a..b][c + i];
    }
  }

  lemma GrowRange<T>(front: seq<T>, s: seq<T>, i: nat, j: nat)
    requires i <= j < |s|
    ensures front + s[i..j + 1] == front + s[i..j] + [s[j]]
  {
  }
}
