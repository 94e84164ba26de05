/**
 The bodies extractContainerArray accepts (hub/aggregator_pure.h): a bare array, an array under "data", and the
 envelope crated puts around the output of jls.
 */
module Envelope {
  import opened Text
  import opened Json
  import opened Aggregator

  // ---------- Finding a key ----------

  /** Whitespace on either side of a colon. */
  datatype Gap = Gap(before: string, after: string)

  predicate IsGap(g: Gap) { AllWs(g.before) && AllWs(g.after) }

  /** "key" ws : ws tail */
  function Field(key: string, g: Gap, tail: string): string { Needle(key) + (g.before + (":" + (g.after + tail))) }

  /** The needle does not start before the end of `pre`. */
  ghost predicate NoEarlier(pre: string, needle: string) {
    forall i :: 0 <= i < |pre| ==> !At(pre + needle, needle, i)
  }

  lemma {:induction false} FieldFound(json: string, from: nat, pre: string, key: string, g: Gap, tail: string)
    requires from <= |json| && json[from..] == pre + Field(key, g, tail)
    requires NoEarlier(pre, Needle(key)) && IsGap(g) && tail != "" && !IsWs(tail[0])
    ensures Find(json, Needle(key), from) == from + |pre|
    ensures var r := ValueAfterKey(json, key, from); from + |pre| < r < |json| && json[r..] == tail
  {
    var k := from + |pre|;
    var rest := g.before + (":" + (g.after + tail));
    NeedleFound(json, from, pre, Needle(key), rest);
    ValueFrom(json, key, from, k, g.before, g.after, tail);
  }

  lemma {:induction false} ValueFrom(json: string, key: string, from: nat, k: nat, w: string, g: string, tail: string)
    requires Find(json, Needle(key), from) == k
    requires k + |Needle(key)| <= |json| && json[k + |Needle(key)|..] == w + (":" + (g + tail))
    requires AllWs(w) && AllWs(g) && tail != "" && !IsWs(tail[0])
    ensures var r := ValueAfterKey(json, key, from); k < r < |json| && json[r..] == tail
  {
    ColonFound(json, k + |Needle(key)|, w, g, tail);
    ValueIs(json, key, from, k, Find(json, ":", k + |Needle(key)|));
  }

  lemma {:induction false} ValueIs(json: string, key: string, from: nat, k: nat, c: nat)
    requires Find(json, Needle(key), from) == k && Find(json, ":", k + |Needle(key)|) == c
    ensures ValueAfterKey(json, key, from) == SkipWs(json, c + 1)
  {
  }

  lemma {:induction false} NeedleFound(json: string, from: nat, pre: string, needle: string, rest: string)
    requires from <= |json| && json[from..] == pre + (needle + rest) && NoEarlier(pre, needle)
    ensures var k := from + |pre|;
      Find(json, needle, from) == k && k + |needle| <= |json| && json[k + |needle|..] == rest
  {
    var k := from + |pre|;
    DropPrefix(json, from, pre, needle + rest);
    DropPrefix(json, k, needle, rest);
    forall i | from <= i < k ensures !At(json, needle, i) {
      WindowAgrees(json, from, pre, needle, rest, i);
    }
    FindIs(json, needle, from, k);
  }

  lemma DropPrefix<T>(s: seq<T>, from: nat, a: seq<T>, b: seq<T>)
    requires from <= |s| && s[from..] == a + b
    ensures from + |a| <= |s| && s[from + |a|..] == b && s[from..from + |a|] == a
  {
    assert s[from + |a|..] == s[from..][|a|..];
    assert s[from..from + |a|] == s[from..][..|a|];
  }

  lemma WindowAgrees(json: string, from: nat, pre: string, needle: string, rest: string, i: nat)
    requires from <= |json| && json[from..] == pre + (needle + rest) && from <= i < from + |pre|
    requires !At(pre + needle, needle, i - from)
    ensures !At(json, needle, i)
  {
    var n := i - from;
    assert json[i..i + |needle|] == (pre + needle)[n..n + |needle|] by {
      assert json[from..][n..n + |needle|] == json[i..i + |needle|];
      assert (pre + (needle + rest))[n..n + |needle|] == (pre + needle)[n..n + |needle|];
    }
  }

  /** Past the needle: whitespace, the colon, whitespace, the value. */
  lemma {:induction false} ColonFound(json: string, k: nat, w: string, g: string, tail: string)
    requires k <= |json| && json[k..] == w + (":" + (g + tail))
    requires AllWs(w) && AllWs(g) && tail != "" && !IsWs(tail[0])
    ensures var c := Find(json, ":", k);
      c != NPOS && SkipWs(json, c + 1) == c + 1 + |g| < |json| && json[c + 1 + |g|..] == tail
  {
    ColonAfterWs(json, k, w, g + tail);
    WsSkipped(json, k + |w| + 1, g, tail);
  }

  lemma {:induction false} ColonAfterWs(json: string, k: nat, w: string, rest: string)
    requires k <= |json| && json[k..] == w + (":" + rest) && AllWs(w)
    ensures Find(json, ":", k) == k + |w| < |json| && json[k + |w| + 1..] == rest
  {
    DropPrefix(json, k, w, ":" + rest);
    var c := k + |w|;
    DropPrefix(json, c, ":", rest);
    assert json[k..c] == w;
    forall i | k <= i < c ensures !At(json, ":", i) {
      assert json[i] == json[k..c][i - k] == w[i - k];
      assert json[i..i + 1] == [json[i]];
    }
    FindIs(json, ":", k, c);
  }

  lemma {:induction false} WsSkipped(json: string, k: nat, g: string, tail: string)
    requires k <= |json| && json[k..] == g + tail && AllWs(g) && tail != "" && !IsWs(tail[0])
    ensures SkipWs(json, k) == k + |g| < |json| && json[k + |g|..] == tail
  {
    DropPrefix(json, k, g, tail);
    var r := k + |g|;
    assert json[r] == json[r..][0];
    forall i | k <= i < r ensures IsWs(json[i]) {
      assert json[i] == json[k..r][i - k];
    }
  }

  // ---------- The accepted shapes ----------

  /** `{ ws "jail" : array` */
  function JailObject(w: string, gj: Gap, arrText: string): string { "{" + w + Field("jail", gj, arrText) }

  /** `{ ... "jail-information" : { ws "jail" : array` */
  function InfoObject(mid: string, gi: Gap, w: string, gj: Gap, arrText: string): string {
    "{" + mid + Field("jail-information", gi, JailObject(w, gj, arrText))
  }

  /** `ws { ... "data" : value` */
  function DataObject(w0: string, pre: string, gd: Gap, value: string): string {
    w0 + ("{" + pre + Field("data", gd, value))
  }

  lemma {:induction false} ArrayAtPrinted(body: string, j: nat, v: Value, rest: string)
    requires Valid(v) && IsArray(v) && j <= |body| && body[j..] == Print(v) + rest
    ensures j < |body| && body[j] == '[' && ArrayAt(body, j) == Print(v)
  {
    ArrayStarts(v, rest);
    FirstCharAt(body, j, Print(v) + rest, '[');
    ArrayCloses(v, rest);
    DropPrefix(body, j, Print(v), rest);
  }

  lemma {:induction false} JailArrayAt(body: string, ji: nat, w: string, gj: Gap, v: Value, rest: string)
    requires AllWs(w) && IsGap(gj) && Valid(v) && IsArray(v)
    requires ji <= |body| && body[ji..] == JailObject(w, gj, Print(v) + rest)
    ensures ArrayAt(body, ValueAfterKey(body, "jail", ji)) == Print(v)
  {
    JailKeyFirst(w);
    ArrayStarts(v, rest);
    FieldFound(body, ji, "{" + w, "jail", gj, Print(v) + rest);
    ArrayAtPrinted(body, ValueAfterKey(body, "jail", ji), v, rest);
  }

  /** The jail list behind a "jail-information" that is the first one from `from` on. */
  lemma {:induction false} InfoArrayAt(
    body: string, from: nat, pre: string, gi: Gap, w: string, gj: Gap, v: Value, rest: string)
    requires IsGap(gi) && AllWs(w) && IsGap(gj) && Valid(v) && IsArray(v) && NoEarlier(pre, Needle("jail-information"))
    requires from <= |body| && body[from..] == pre + Field("jail-information", gi, JailObject(w, gj, Print(v) + rest))
    ensures Find(body, Needle("jail-information"), from) == from + |pre|
    ensures var ji := ValueAfterKey(body, "jail-information", from);
      ji != NPOS && ArrayAt(body, ValueAfterKey(body, "jail", ji)) == Print(v)
  {
    FieldFound(body, from, pre, "jail-information", gi, JailObject(w, gj, Print(v) + rest));
    JailArrayAt(body, ValueAfterKey(body, "jail-information", from), w, gj, v, rest);
  }

  /** `[ ... ]`, with whitespace before and anything behind. */
  lemma {:induction false} ArrayExtracts(w0: string, v: Value, rest: string)
    requires AllWs(w0) && Valid(v) && IsArray(v)
    ensures ExtractContainerArray(w0 + (Print(v) + rest)) == Print(v)
  {
    var body := w0 + (Print(v) + rest);
    ArrayStarts(v, rest);
    assert body[0..] == body;
    WsSkipped(body, 0, w0, Print(v) + rest);
    ArrayAtPrinted(body, |w0|, v, rest);
  }

  /** `{ ... "data" : [ ... ]` */
  lemma {:induction false} DataArrayExtracts(w0: string, pre: string, gd: Gap, v: Value, rest: string)
    requires AllWs(w0) && IsGap(gd) && Valid(v) && IsArray(v) && NoEarlier("{" + pre, Needle("data"))
    ensures ExtractContainerArray(DataObject(w0, pre, gd, Print(v) + rest)) == Print(v)
  {
    var body := DataObject(w0, pre, gd, Print(v) + rest);
    ArrayStarts(v, rest);
    DataFound(w0, pre, gd, Print(v) + rest);
    ArrayAtPrinted(body, ValueAfterKey(body, "data", |w0|), v, rest);
  }

  /**
   `{ ... "data" : { ... "jail-information" : { "jail" : [ ... ]`: the array comes back exactly as
   it was printed, whatever the whitespace in each gap and whatever members come before the keys.
   */
  lemma {:induction false} EnvelopeExtracts(
    w0: string, pre: string, gd: Gap, mid: string, gi: Gap, w: string, gj: Gap, v: Value, rest: string)
    requires AllWs(w0) && IsGap(gd) && IsGap(gi) && AllWs(w) && IsGap(gj) && Valid(v) && IsArray(v)
    requires NoEarlier("{" + pre, Needle("data")) && NoEarlier("{" + mid, Needle("jail-information"))
    ensures ExtractContainerArray(DataObject(w0, pre, gd, InfoObject(mid, gi, w, gj, Print(v) + rest))) == Print(v)
  {
    var info := InfoObject(mid, gi, w, gj, Print(v) + rest);
    var body := DataObject(w0, pre, gd, info);
    DataFound(w0, pre, gd, info);
    var d := ValueAfterKey(body, "data", |w0|);
    FirstCharAt(body, d, info, '{');
    InfoArrayAt(body, d, "{" + mid, gi, w, gj, v, rest);
    InnerArray(body, |w0|);
    ArrayStarts(v, rest);
  }

  /** An object is searched for the jail list unless its "data" is an array. */
  lemma {:induction false} InnerArray(body: string, a: nat)
    requires SkipWs(body, 0) == a < |body| && body[a] == '{'
    requires var d := ValueAfterKey(body, "data", a); !(0 <= d < |body| && body[d] == '[')
    ensures var d := ValueAfterKey(body, "data", a);
      var ji := ValueAfterKey(body, "jail-information", if d == NPOS then a else d);
      ExtractContainerArray(body) ==
      if ji == NPOS then "[]" else OrEmpty(ArrayAt(body, ValueAfterKey(body, "jail", ji)))
  {
  }

  /** The first brace, after whitespace. */
  lemma {:induction false} BraceFound(w0: string, rest: string)
    requires AllWs(w0)
    ensures var body := w0 + ("{" + rest); SkipWs(body, 0) == |w0| < |body| && body[|w0|] == '{'
  {
    var body := w0 + ("{" + rest);
    assert body[0..] == body;
    WsSkipped(body, 0, w0, "{" + rest);
    FirstCharAt(body, |w0|, "{" + rest, '{');
  }

  lemma {:induction false} DataFound(w0: string, pre: string, gd: Gap, value: string)
    requires AllWs(w0) && IsGap(gd) && NoEarlier("{" + pre, Needle("data")) && value != "" && !IsWs(value[0])
    ensures var body := DataObject(w0, pre, gd, value); var d := ValueAfterKey(body, "data", |w0|);
      && SkipWs(body, 0) == |w0| < |body| && body[|w0|] == '{'
      && 0 <= d < |body| && body[d..] == value
  {
    var body := DataObject(w0, pre, gd, value);
    var field := Field("data", gd, value);
    assert "{" + pre + field == "{" + (pre + field);
    BraceFound(w0, pre + field);
    assert body[|w0|..] == "{" + pre + field;
    FieldFound(body, |w0|, "{" + pre, "data", gd, value);
  }

  lemma FirstCharAt(s: string, k: nat, t: string, c: char)
    requires k <= |s| && s[k..] == t && t != "" && t[0] == c
    ensures k < |s| && s[k] == c
  {
    assert s[k] == s[k..][0];
  }

  lemma {:induction false} ArrayStarts(v: Value, rest: string)
    requires IsArray(v)
    ensures |Print(v)| >= 2 && (Print(v) + rest)[0] == '['
  {
  }

  lemma JailKeyFirst(w: string)
    requires AllWs(w)
    ensures NoEarlier("{" + w, Needle("jail"))
  {
    var t, n := "{" + w, Needle("jail");
    forall i | 0 <= i < |t| ensures !At(t + n, n, i) {
      AtChars(t + n, n, i);
      assert (t + n)[i] == t[i] && n[0] == '"';
      assert i > 0 ==> t[i] == w[i - 1];
    }
  }

  // ---------- Without "data" ----------

  lemma {:induction false} NoEarlierSuffix(pre: string, needle: string, m: nat)
    requires NoEarlier(pre, needle) && m <= |pre|
    ensures NoEarlier(pre[m..], needle)
  {
    assert (pre + needle)[m..] == pre[m..] + needle;
    forall i | 0 <= i < |pre| - m ensures !At(pre[m..] + needle, needle, i) {
      AtShift(pre + needle, m, needle, i);
      assert !At(pre + needle, needle, m + i);
    }
  }

  /** The jail list is found from any start that is not past the key. */
  lemma {:induction false} InfoArrayFrom(
    body: string, a: nat, from: nat, pre: string, gi: Gap, w: string, gj: Gap, v: Value, rest: string)
    requires IsGap(gi) && AllWs(w) && IsGap(gj) && Valid(v) && IsArray(v) && NoEarlier(pre, Needle("jail-information"))
    requires a <= |body| && body[a..] == pre + Field("jail-information", gi, JailObject(w, gj, Print(v) + rest))
    requires a <= from <= a + |pre|
    ensures var ji := ValueAfterKey(body, "jail-information", from);
      ji != NPOS && ArrayAt(body, ValueAfterKey(body, "jail", ji)) == Print(v)
  {
    var m := from - a;
    var field := Field("jail-information", gi, JailObject(w, gj, Print(v) + rest));
    NoEarlierSuffix(pre, Needle("jail-information"), m);
    assert body[from..] == body[a..][m..];
    assert (pre + field)[m..] == pre[m..] + field;
    InfoArrayAt(body, from, pre[m..], gi, w, gj, v, rest);
  }

  /** Where the search for "data" ends up: nowhere, or at what stands behind the next colon. */
  function DataAt(w0: string, info: string): int { ValueAfterKey(w0 + info, "data", |w0|) }

  /** Where the key "jail-information" stands. */
  function KeyAt(w0: string, mid: string): nat { |w0| + 1 + |mid| }

  /** A "data" that is found and leads to an array. */
  predicate DataArray(w0: string, info: string) {
    var d := DataAt(w0, info);
    0 <= d < |w0 + info| && (w0 + info)[d] == '['
  }

  /**
   `{ ... "jail-information" : { "jail" : [ ... ]`: an array the text `"data"` leads to is returned instead;
   else the jail list comes back if that text does not lead past the key, and is lost if it does.
   */
  lemma {:induction false} BareExtracts(
    w0: string, mid: string, gi: Gap, w: string, gj: Gap, v: Value, rest: string)
    requires AllWs(w0) && IsGap(gi) && AllWs(w) && IsGap(gj) && Valid(v) && IsArray(v)
    requires NoEarlier("{" + mid, Needle("jail-information"))
    requires var info := InfoObject(mid, gi, w, gj, Print(v) + rest);
      DataAt(w0, info) > KeyAt(w0, mid) ==> Find(w0 + info, Needle("jail-information"), DataAt(w0, info)) == NPOS
    ensures var info := InfoObject(mid, gi, w, gj, Print(v) + rest);
      ExtractContainerArray(w0 + info) ==
      if DataArray(w0, info) then OrEmpty(ArrayAt(w0 + info, DataAt(w0, info)))
      else if DataAt(w0, info) <= KeyAt(w0, mid) then Print(v) else "[]"
  {
    var pre, info := "{" + mid, InfoObject(mid, gi, w, gj, Print(v) + rest);
    var body, d := w0 + info, DataAt(w0, info);
    var field := Field("jail-information", gi, JailObject(w, gj, Print(v) + rest));
    BareShape(w0, mid, field);
    if DataArray(w0, info) {
      DataArrayWins(body, |w0|);
    } else if d <= KeyAt(w0, mid) {
      BareKept(body, |w0|, pre, gi, w, gj, v, rest);
    } else {
      BareLost(body, |w0|, d);
    }
  }

  lemma {:induction false} DataArrayWins(body: string, a: nat)
    requires SkipWs(body, 0) == a < |body| && body[a] == '{'
    requires var d := ValueAfterKey(body, "data", a); 0 <= d < |body| && body[d] == '['
    ensures ExtractContainerArray(body) == OrEmpty(ArrayAt(body, ValueAfterKey(body, "data", a)))
  {
  }

  lemma {:induction false} BareShape(w0: string, mid: string, field: string)
    requires AllWs(w0)
    ensures var body := w0 + ("{" + mid + field);
      SkipWs(body, 0) == |w0| < |body| && body[|w0|] == '{' && body[|w0|..] == "{" + mid + field
  {
    assert "{" + mid + field == "{" + (mid + field);
    BraceFound(w0, mid + field);
  }

  lemma {:induction false} BareKept(
    body: string, a: nat, pre: string, gi: Gap, w: string, gj: Gap, v: Value, rest: string)
    requires IsGap(gi) && AllWs(w) && IsGap(gj) && Valid(v) && IsArray(v) && NoEarlier(pre, Needle("jail-information"))
    requires SkipWs(body, 0) == a < |body| && body[a] == '{'
    requires body[a..] == pre + Field("jail-information", gi, JailObject(w, gj, Print(v) + rest))
    requires var d := ValueAfterKey(body, "data", a); d <= a + |pre| && !(0 <= d < |body| && body[d] == '[')
    ensures ExtractContainerArray(body) == Print(v)
  {
    var d := ValueAfterKey(body, "data", a);
    InfoArrayFrom(body, a, if d == NPOS then a else d, pre, gi, w, gj, v, rest);
    InnerArray(body, a);
    ArrayStarts(v, rest);
  }

  lemma {:induction false} BareLost(body: string, a: nat, d: nat)
    requires SkipWs(body, 0) == a < |body| && body[a] == '{'
    requires d == ValueAfterKey(body, "data", a) && !(d < |body| && body[d] == '[')
    requires Find(body, Needle("jail-information"), d) == NPOS
    ensures ExtractContainerArray(body) == "[]"
  {
    InnerArray(body, a);
  }

  /** A list whose one jail is called "data": [{"n":"data","j":1}]. */
  const NAMED_DATA := Arr(LastElem("", Obj(NAME), ""))
  const NAME := MoreMembers("", [Plain('n')], "", "", DATA, "", JID)
  const DATA := Str([Plain('d'), Plain('a'), Plain('t'), Plain('a')])
  const JID := LastMember("", [Plain('j')], "", "", Scalar("1"), "")

  lemma StrTextCons(c: char, s: seq<StrItem>)
    ensures StrText([Plain(c)] + s) == [c] + StrText(s)
  {
    assert ([Plain(c)] + s)[1..] == s;
  }

  lemma DataPrints()
    ensures Print(DATA) == "\"data\""
  {
    var a, ta, ata := [Plain('a')], [Plain('t'), Plain('a')], [Plain('a'), Plain('t'), Plain('a')];
    StrTextCons('a', []);
    StrTextCons('t', a);
    StrTextCons('a', ta);
    StrTextCons('d', ata);
    assert a == [Plain('a')] + [] && ta == [Plain('t')] + a && ata == [Plain('a')] + ta;
    assert DATA.body == [Plain('d')] + ata;
    assert StrText(DATA.body) == "data";
  }

  lemma JidPrints()
    ensures PrintMembers(JID) == "\"j\":1"
  {
    StrTextCons('j', []);
    assert [Plain('j')] == [Plain('j')] + [];
    assert Quoted([Plain('j')]) == "\"j\"";
  }

  lemma NamedMembersPrint(ms: Members)
    requires ms == NAME
    ensures PrintMembers(ms) == "\"n\":\"data\",\"j\":1"
  {
    DataPrints();
    JidPrints();
    StrTextCons('n', []);
    assert [Plain('n')] == [Plain('n')] + [];
    assert Quoted([Plain('n')]) == "\"n\"";
    assert PrintMembers(ms) == "\"n\":" + Print(DATA) + "," + PrintMembers(JID);
  }

  lemma OneObjectPrints(ms: Members)
    ensures Print(Arr(LastElem("", Obj(ms), ""))) == "[{" + PrintMembers(ms) + "}]"
  {
    var v := Obj(ms);
    assert Print(v) == "{" + PrintMembers(ms) + "}";
    assert PrintElems(LastElem("", v, "")) == Print(v);
    assert "[" + ("{" + PrintMembers(ms) + "}" + "]") == "[{" + PrintMembers(ms) + "}]";
  }

  lemma NamedDataIsValid()
    ensures Valid(NAMED_DATA) && IsArray(NAMED_DATA)
  {
  }

  const TIGHT := Gap("", "")

  const LOST_HEAD := "{\"jail-information\":{\"jail\":[{\"n\":"
  const LOST_TAIL := ",\"j\":1}]}}"

  lemma TightField(key: string, tail: string)
    ensures "{" + "" + Field(key, TIGHT, tail) == "{" + Needle(key) + ":" + tail
  {
    assert TIGHT.after + tail == tail;
    assert TIGHT.before + (":" + tail) == ":" + tail;
    assert "{" + "" == "{";
  }

  lemma TightJail(arr: string)
    ensures JailObject("", TIGHT, arr) == "{\"jail\":" + arr
  {
    TightField("jail", arr);
    assert "{" + Needle("jail") + ":" == "{\"jail\":";
  }

  lemma TightInfo(arr: string)
    ensures InfoObject("", TIGHT, "", TIGHT, arr) == "{\"jail-information\":" + JailObject("", TIGHT, arr)
  {
    TightField("jail-information", JailObject("", TIGHT, arr));
    assert "{" + Needle("jail-information") + ":" == "{\"jail-information\":";
  }

  lemma LostBody()
    ensures InfoObject("", TIGHT, "", TIGHT, Print(NAMED_DATA) + "}}") == LOST_HEAD + (Needle("data") + LOST_TAIL)
  {
    var arr := Print(NAMED_DATA) + "}}";
    TightJail(arr);
    TightInfo(arr);
    OneObjectPrints(NAME);
    NamedMembersPrint(NAME);
    LostText(JailObject("", TIGHT, arr), arr, PrintMembers(NAME));
  }

  lemma LostText(inner: string, arr: string, text: string)
    requires text == "\"n\":\"data\",\"j\":1" && arr == "[{" + text + "}]" + "}}" && inner == "{\"jail\":" + arr
    ensures "{\"jail-information\":" + inner == LOST_HEAD + (Needle("data") + LOST_TAIL)
  {
    var tail := "\"data\"" + LOST_TAIL;
    assert Needle("data") == "\"data\"";
    assert arr == "[{\"n\":" + tail;
    assert inner == ("{\"jail\":" + "[{\"n\":") + tail;
    assert "{\"jail-information\":" + ("{\"jail\":" + "[{\"n\":") == LOST_HEAD;
  }

  /** The jail's name is taken for the key, and the search goes on at its jid. */
  lemma LostSearch(body: string)
    requires body == LOST_HEAD + (Needle("data") + LOST_TAIL)
    ensures var d := ValueAfterKey(body, "data", 0); 1 < d < |body| && body[d] == '1'
  {
    assert NoEarlier(LOST_HEAD, Needle("data")) by {
      assert QuoteThenNot(LOST_HEAD, 'd');
      NoKeyIn(LOST_HEAD, "data", 'd');
    }
    assert body[0..] == body;
    NeedleFound(body, 0, LOST_HEAD, Needle("data"), LOST_TAIL);
    LostColon(body, |LOST_HEAD| + |Needle("data")|);
  }

  lemma LostColon(body: string, k: nat)
    requires k <= |body| && body[k..] == LOST_TAIL
    ensures Find(body, ":", k) == k + 4 && k + 5 < |body| && SkipWs(body, k + 5) == k + 5 && body[k + 5] == '1'
  {
    assert LOST_TAIL == ",\"j\"" + (":" + "1}]}}");
    CharFound(body, k, ",\"j\"", ':', "1}]}}");
  }

  lemma CharFound(s: string, k: nat, w: string, c: char, rest: string)
    requires k <= |s| && s[k..] == w + ([c] + rest) && forall i :: 0 <= i < |w| ==> w[i] != c
    ensures Find(s, [c], k) == k + |w| && k + |w| + 1 <= |s| && s[k + |w| + 1..] == rest
    ensures rest != "" ==> k + |w| + 1 < |s| && s[k + |w| + 1] == rest[0]
  {
    DropPrefix(s, k, w, [c] + rest);
    var at := k + |w|;
    DropPrefix(s, at, [c], rest);
    assert s[k..at] == w;
    forall i | k <= i < at ensures !At(s, [c], i) {
      assert s[i] == s[k..at][i - k] == w[i - k];
      assert s[i..i + 1] == [s[i]];
    }
    FindIs(s, [c], k, at);
    if rest != "" { assert s[at + 1] == s[at + 1..][0]; }
  }

  lemma KeyOnce(body: string)
    requires body == LOST_HEAD + (Needle("data") + LOST_TAIL)
    ensures Find(body, Needle("jail-information"), 2) == NPOS
  {
    var n := Needle("jail-information");
    assert forall i :: 7 <= i < |body| ==> body[i] != '-';
    forall i | 2 <= i ensures !At(body, n, i) {
      AtChars(body, n, i);
      assert n[5] == '-';
    }
  }

  lemma LostExtracts(body: string)
    requires body == LOST_HEAD + (Needle("data") + LOST_TAIL)
    ensures ExtractContainerArray(body) == "[]"
  {
    LostSearch(body);
    KeyOnce(body);
    var d := ValueAfterKey(body, "data", 0);
    assert Find(body, Needle("jail-information"), d) == NPOS;
    assert body[0] == '{' && SkipWs(body, 0) == 0;
    BareLost(body, 0, d);
  }

  /** So a jail called "data" makes the list of a bare body disappear. */
  lemma JailNamedDataIsLost()
    ensures Valid(NAMED_DATA) && IsArray(NAMED_DATA) && |Print(NAMED_DATA)| > 2
    ensures ExtractContainerArray(InfoObject("", TIGHT, "", TIGHT, Print(NAMED_DATA) + "}}")) == "[]"
  {
    NamedDataIsValid();
    OneObjectPrints(NAME);
    LostBody();
    LostExtracts(InfoObject("", TIGHT, "", TIGHT, Print(NAMED_DATA) + "}}"));
  }

  const HIDES_HEAD := "{\"a\":"
  const HIDES_ARRAY := Arr(LastElem("", Scalar("1"), ""))

  /** And a string "data" in front of an array hides all that follows, whatever it is. */
  lemma DataStringHidesList(tail: string)
    ensures ExtractContainerArray("{\"a\":\"data\",\"b\":[1]" + tail) == "[1]"
  {
    var body := "{\"a\":\"data\",\"b\":[1]" + tail;
    var arr := "[1]" + tail;
    assert Needle("data") == "\"data\"";
    assert body == HIDES_HEAD + (Needle("data") + (",\"b\"" + (":" + arr)));
    HidesSearch(body, arr);
    assert body[0] == '{' && SkipWs(body, 0) == 0;
    DataArrayWins(body, 0);
    OnePrints(HIDES_ARRAY);
    ArrayAtPrinted(body, ValueAfterKey(body, "data", 0), HIDES_ARRAY, tail);
  }

  lemma OnePrints(v: Value)
    requires v == HIDES_ARRAY
    ensures Valid(v) && IsArray(v) && Print(v) == "[1]"
  {
    assert PrintElems(v.elems) == "1";
  }

  lemma HidesSearch(body: string, arr: string)
    requires body == HIDES_HEAD + (Needle("data") + (",\"b\"" + (":" + arr))) && arr != "" && arr[0] == '['
    ensures var d := ValueAfterKey(body, "data", 0); 0 <= d < |body| && body[d..] == arr && body[d] == '['
  {
    assert NoEarlier(HIDES_HEAD, Needle("data")) by {
      assert QuoteThenNot(HIDES_HEAD, 'd');
      NoKeyIn(HIDES_HEAD, "data", 'd');
    }
    assert body[0..] == body;
    NeedleFound(body, 0, HIDES_HEAD, Needle("data"), ",\"b\"" + (":" + arr));
    var k := |HIDES_HEAD| + |Needle("data")|;
    HidesColon(body, k, arr);
    ValueIs(body, "data", 0, |HIDES_HEAD|, k + 4);
  }

  lemma HidesColon(body: string, k: nat, arr: string)
    requires k <= |body| && body[k..] == ",\"b\"" + (":" + arr) && arr != "" && arr[0] == '['
    ensures Find(body, ":", k) == k + 4 && k + 5 < |body| && SkipWs(body, k + 5) == k + 5
    ensures body[k + 5..] == arr && body[k + 5] == '['
  {
    CharFound(body, k, ",\"b\"", ':', arr);
  }

  // ---------- What crated and jls send ----------

  /** crated's own part: jsonOk puts this in front of the text it forwards. */
  const STATUS := "\"status\":\"ok\","

  /** Every quote is followed by a character other than `c`. */
  predicate QuoteThenNot(t: string, c: char) {
    forall i :: 0 <= i < |t| && t[i] == '"' ==> i + 1 < |t| && t[i + 1] != c
  }

  lemma QuotesConcat(t: string, u: string, c: char)
    requires QuoteThenNot(t, c) && QuoteThenNot(u, c)
    ensures QuoteThenNot(t + u, c)
  {
    var s := t + u;
    forall i | 0 <= i < |s| && s[i] == '"' ensures i + 1 < |s| && s[i + 1] != c {
      if i >= |t| { assert u[i - |t|] == '"'; }
    }
  }

  /** Then no key that starts with `c` is found in it. */
  lemma NoKeyIn(t: string, key: string, c: char)
    requires QuoteThenNot(t, c) && key != "" && key[0] == c
    ensures NoEarlier(t, Needle(key))
  {
    var n := Needle(key);
    forall i | 0 <= i < |t| ensures !At(t + n, n, i) {
      AtChars(t + n, n, i);
      assert n[0] == '"' && n[1] == c;
      assert (t + n)[i + 0] == t[i];
      assert i + 1 < |t| ==> (t + n)[i + 1] == t[i + 1];
    }
  }

  /** The member jls puts first, `"__version": "..."`, and the comma behind it, in any spacing. */
  function VersionMember(w: string, g: Gap, version: string, x: string, y: string): string {
    w + (QuotedText("__version", g.before + ":") + (g.after + (QuotedText(version, x + ",") + y)))
  }

  function QuotedText(t: string, behind: string): string { "\"" + t + "\"" + behind }

  lemma QuotedThenNot(t: string, w: string, e: char, c: char)
    requires (forall i :: 0 <= i < |t| ==> t[i] != '"') && (t == "" || t[0] != c) && AllWs(w)
    requires !IsWs(c) && c != '"' && e != c && e != '"'
    ensures QuoteThenNot(QuotedText(t, w + [e]), c)
  {
    var s := QuotedText(t, w + [e]);
    forall i | 0 <= i < |s| && s[i] == '"' ensures i + 1 < |s| && s[i + 1] != c {
      assert i != 0 ==> i == |t| + 1;
    }
  }

  lemma VersionKeepsKey(w: string, g: Gap, version: string, x: string, y: string)
    requires AllWs(w) && IsGap(g) && AllWs(x) && AllWs(y) && AllDigits(version)
    ensures NoEarlier("{" + VersionMember(w, g, version, x, y), Needle("jail-information"))
  {
    QuotedThenNot("__version", g.before, ':', 'j');
    QuotedThenNot(version, x, ',', 'j');
    var v, n := QuotedText("__version", g.before + ":"), QuotedText(version, x + ",");
    QuotesConcat(n, y, 'j');
    QuotesConcat(g.after, n + y, 'j');
    QuotesConcat(v, g.after + (n + y), 'j');
    QuotesConcat(w, v + (g.after + (n + y)), 'j');
    QuotesConcat("{", VersionMember(w, g, version, x, y), 'j');
    NoKeyIn("{" + VersionMember(w, g, version, x, y), "jail-information", 'j');
  }

  lemma StatusKeepsKey()
    ensures NoEarlier("{" + STATUS, Needle("data"))
  {
    var t := "{" + STATUS;
    assert QuoteThenNot(t, 'd');
    NoKeyIn(t, "data", 'd');
  }

  /**
   What crated answers: its own compact prefix, then the text of `jls --libxo json` in any spacing and
   with any version. The jail list comes back as printed and is counted exactly.
   */
  lemma {:induction false} CratedEnvelopeExtracts(
    w2: string, u: string, gv: Gap, version: string, x: string, y: string,
    gi: Gap, w: string, gj: Gap, v: Value, rest: string)
    requires AllWs(w2) && AllWs(u) && IsGap(gv) && AllDigits(version) && AllWs(x) && AllWs(y)
    requires IsGap(gi) && AllWs(w) && IsGap(gj) && IsObjectArray(v)
    ensures var mid := VersionMember(u, gv, version, x, y);
      var body := DataObject("", STATUS, Gap("", w2), InfoObject(mid, gi, w, gj, Print(v) + rest));
      ExtractContainerArray(body) == Print(v) && CountTopLevelObjects(ExtractContainerArray(body)) == ObjectCount(v)
  {
    StatusKeepsKey();
    VersionKeepsKey(u, gv, version, x, y);
    EnvelopeExtracts("", STATUS, Gap("", w2), VersionMember(u, gv, version, x, y), gi, w, gj, v, rest);
    CountOfObjectArray("", v, "");
    assert "" + Print(v) + "" == Print(v);
  }
}
