/** JSON values as text, the tokens they should give, and that jsmn_parse gives exactly these. */
module JsonText {
  import opened Jsmn

  // ---------------------------------------------------------------- values

  /** A value with the white space around its parts; primitives and string contents are as written. */
  datatype Json = Prim(text: string) | Str(content: string) | Arr(items: Items) | Obj(members: Members)

  datatype Items = NoItems(space: string) | Item(before: string, head: Json, after: string, tail: Items)

  datatype Members =
    | NoMembers(space: string)
    | Member(before: string, key: string, afterKey: string, beforeValue: string, value: Json, after: string,
             tail: Members)

  predicate White(s: string) {
    forall i :: 0 <= i < |s| ==> s[i] == '\t' || s[i] == '\r' || s[i] == '\n' || s[i] == ' '
  }

  /** The visible characters that may stand in a number, a literal or any other unquoted value. */
  predicate Unquoted(c: char) { ' ' < c && c as int < 127 && c !in {',', ':', ']', '}'} }

  predicate PrimitiveText(s: string) {
    && s != "" && s[0] != '{' && s[0] != '[' && s[0] != '\"'
    && forall i :: 0 <= i < |s| ==> Unquoted(s[i])
  }

  predicate EscapeLetter(c: char) { c in {'b', 'f', 'n', 'r', 't', '/', '\\', '\"'} }

  predicate HexDigit(c: char) { c in "0123456789ABCDEFabcdef" }

  /** The contents of a string: no quote or NUL but behind a backslash, and only the escapes of JSON. */
  predicate StringText(s: string) {
    || s == ""
    || (s[0] != '\"' && s[0] != '\\' && s[0] != '\0' && StringText(s[1..]))
    || (s[0] == '\\' && |s| >= 2 && EscapeLetter(s[1]) && StringText(s[2..]))
    || (s[0] == '\\' && |s| >= 6 && s[1] == 'u' && HexDigit(s[2]) && HexDigit(s[3]) && HexDigit(s[4]) && HexDigit(s[5])
        && StringText(s[6..]))
  }

  predicate WellFormed(v: Json) {
    match v
    case Prim(text) => PrimitiveText(text)
    case Str(content) => StringText(content)
    case Arr(items) => WellFormedItems(items)
    case Obj(members) => WellFormedMembers(members)
  }

  predicate WellFormedItems(items: Items) {
    match items
    case NoItems(space) => White(space)
    case Item(before, head, after, tail) => White(before) && WellFormed(head) && White(after) && WellFormedItems(tail)
  }

  predicate WellFormedMembers(members: Members) {
    match members
    case NoMembers(space) => White(space)
    case Member(before, key, afterKey, beforeValue, value, after, tail) =>
      && White(before) && StringText(key) && White(afterKey) && White(beforeValue) && WellFormed(value) && White(after)
      && WellFormedMembers(tail)
  }

  function Quoted(s: string): string { "\"" + s + "\"" }

  function Print(v: Json): (t: string)
    ensures t != "" || v.Prim?
  {
    match v
    case Prim(text) => text
    case Str(content) => Quoted(content)
    case Arr(items) => "[" + PrintItems(items, "")
    case Obj(members) => "{" + PrintMembers(members, "")
  }

  /** The items and the closing bracket; `separator` stands before the first of them. */
  function PrintItems(items: Items, separator: string): string {
    match items
    case NoItems(space) => space + "]"
    case Item(before, head, after, tail) => separator + before + (Print(head) + (after + PrintItems(tail, ",")))
  }

  function PrintMembers(members: Members, separator: string): string {
    match members
    case NoMembers(space) => space + "}"
    case Member(before, key, afterKey, beforeValue, value, after, tail) =>
      separator + before
      + (Quoted(key) + (afterKey + ":" + beforeValue + (Print(value) + (after + PrintMembers(tail, ",")))))
  }

  // ---------------------------------------------------------------- the tokens of a value

  function Size(v: Json): (n: nat)
    ensures n >= 1
  {
    match v
    case Prim(_) => 1
    case Str(_) => 1
    case Arr(items) => 1 + ItemsSize(items)
    case Obj(members) => 1 + MembersSize(members)
  }

  function ItemsSize(items: Items): nat {
    match items
    case NoItems(_) => 0
    case Item(_, head, _, tail) => Size(head) + ItemsSize(tail)
  }

  function MembersSize(members: Members): nat {
    match members
    case NoMembers(_) => 0
    case Member(_, _, _, _, value, _, tail) => 1 + Size(value) + MembersSize(tail)
  }

  function ItemCount(items: Items): nat { if items.NoItems? then 0 else 1 + ItemCount(items.tail) }

  function MemberCount(members: Members): nat { if members.NoMembers? then 0 else 1 + MemberCount(members.tail) }

  /** In preorder: an array counts its elements, an object its keys, and a key its one value. */
  function Tokens(v: Json, at: nat): (t: seq<Token>)
    ensures |t| == Size(v)
    ensures forall i :: 0 <= i < |t| ==> !Open(t[i])
  {
    match v
    case Prim(text) => [Token(Primitive, at, at + |text|, 0)]
    case Str(content) => [Token(String, at + 1, at + 1 + |content|, 0)]
    case Arr(items) => [Token(Array, at, at + |Print(v)|, ItemCount(items))] + ItemTokens(items, at + 1, "")
    case Obj(members) => [Token(Object, at, at + |Print(v)|, MemberCount(members))] + MemberTokens(members, at + 1, "")
  }

  function ItemTokens(items: Items, at: nat, separator: string): (t: seq<Token>)
    ensures |t| == ItemsSize(items)
    ensures forall i :: 0 <= i < |t| ==> !Open(t[i])
  {
    match items
    case NoItems(_) => []
    case Item(before, head, after, tail) =>
      var p := at + |separator + before|;
      Tokens(head, p) + ItemTokens(tail, p + |Print(head)| + |after|, ",")
  }

  function MemberTokens(members: Members, at: nat, separator: string): (t: seq<Token>)
    ensures |t| == MembersSize(members)
    ensures forall i :: 0 <= i < |t| ==> !Open(t[i])
  {
    match members
    case NoMembers(_) => []
    case Member(before, key, afterKey, beforeValue, value, after, tail) =>
      var k := at + |separator + before|;
      var p := k + |Quoted(key)| + |afterKey + ":" + beforeValue|;
      [Token(String, k + 1, k + 1 + |key|, 1)] + Tokens(value, p)
      + MemberTokens(tail, p + |Print(value)| + |after|, ",")
  }
}
