/**
 JSON texts (sections 2, 4, 5 and 7 of RFC 8259) as concrete syntax: whitespace anywhere the
 grammar allows it, escapes and brackets inside strings.
 */
module Json {

  predicate IsWs(c: char) { c == ' ' || c == '\t' || c == '\n' || c == '\r' }

  predicate AllWs(s: string) { forall i :: 0 <= i < |s| ==> s[i] in {' ', '\t', '\n', '\r'} }

  /** A character of a string: itself, or a backslash and what follows it. */
  datatype StrItem = Plain(c: char) | Escaped(c: char)

  datatype Value =
    | Scalar(text: string) // a number, true, false or null
    | Str(body: seq<StrItem>)
    | EmptyArr(ws: string)
    | Arr(elems: Elems)
    | EmptyObj(ws: string)
    | Obj(members: Members)

  datatype Elems =
    | LastElem(pre: string, v: Value, post: string)
    | MoreElems(pre: string, v: Value, post: string, rest: Elems)

  datatype Members =
    | LastMember(pre: string, key: seq<StrItem>, mid: string, gap: string, v: Value, post: string)
    | MoreMembers(pre: string, key: seq<StrItem>, mid: string, gap: string, v: Value, post: string, rest: Members)

  predicate IsScalarChar(c: char) {
    c !in {' ', '\t', '\n', '\r', '"', '\\', '[', ']', '{', '}', ',', ':'}
  }

  predicate ValidStr(s: seq<StrItem>) {
    forall i :: 0 <= i < |s| && s[i].Plain? ==> s[i].c != '"' && s[i].c != '\\'
  }

  predicate Valid(v: Value) {
    match v
    case Scalar(t) => |t| > 0 && forall i :: 0 <= i < |t| ==> IsScalarChar(t[i])
    case Str(s) => ValidStr(s)
    case EmptyArr(w) => AllWs(w)
    case Arr(es) => ValidElems(es)
    case EmptyObj(w) => AllWs(w)
    case Obj(ms) => ValidMembers(ms)
  }

  predicate ValidElems(es: Elems) {
    && AllWs(es.pre) && Valid(es.v) && AllWs(es.post)
    && (es.MoreElems? ==> ValidElems(es.rest))
  }

  predicate ValidMembers(ms: Members) {
    && AllWs(ms.pre) && ValidStr(ms.key) && AllWs(ms.mid) && AllWs(ms.gap) && Valid(ms.v) && AllWs(ms.post)
    && (ms.MoreMembers? ==> ValidMembers(ms.rest))
  }

  function StrText(s: seq<StrItem>): string {
    if s == [] then ""
    else (match s[0] case Plain(c) => [c] case Escaped(c) => ['\\', c]) + StrText(s[1..])
  }

  function Quoted(s: seq<StrItem>): string { "\"" + (StrText(s) + "\"") }

  function Print(v: Value): string {
    match v
    case Scalar(t) => t
    case Str(s) => Quoted(s)
    case EmptyArr(w) => "[" + (w + "]")
    case Arr(es) => "[" + (PrintElems(es) + "]")
    case EmptyObj(w) => "{" + (w + "}")
    case Obj(ms) => "{" + (PrintMembers(ms) + "}")
  }

  function PrintElems(es: Elems): string {
    var here := es.pre + (Print(es.v) + es.post);
    match es
    case LastElem(_, _, _) => here
    case MoreElems(_, _, _, rest) => here + ("," + PrintElems(rest))
  }

  function PrintMembers(ms: Members): string {
    var here := ms.pre + (Quoted(ms.key) + (ms.mid + (":" + (ms.gap + (Print(ms.v) + ms.post)))));
    match ms
    case LastMember(_, _, _, _, _, _) => here
    case MoreMembers(_, _, _, _, _, _, rest) => here + ("," + PrintMembers(rest))
  }

  function Length(es: Elems): nat {
    match es
    case LastElem(_, _, _) => 1
    case MoreElems(_, _, _, rest) => 1 + Length(rest)
  }

  predicate IsObject(v: Value) { v.EmptyObj? || v.Obj? }

  predicate AllObjects(es: Elems) { IsObject(es.v) && (es.MoreElems? ==> AllObjects(es.rest)) }

  /** An array of objects, as crated lists containers. */
  predicate IsObjectArray(v: Value) { Valid(v) && (v.EmptyArr? || (v.Arr? && AllObjects(v.elems))) }

  function ObjectCount(v: Value): nat { if v.Arr? then Length(v.elems) else 0 }
}
