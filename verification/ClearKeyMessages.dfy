/**
 The Clear Key messages (sections 9.1.3 and 9.1.4 of Encrypted Media Extensions): key-id init
 data, license request and JWK Set response, and what the scanner reads back from them.

 Every printer takes the text that follows as its last argument.
 */
module ClearKeyMessages {
  import opened Basics
  import opened StdString
  import opened JsonScan
  import opened ScanLaws
  import opened Base64Url

  type Pair = (seq<Byte>, seq<Byte>)

  /** The end of a message, with or without its `"type":"temporary"` member. */
  function Trailer(typed: bool): string {
    if typed then "]," + Quoted("type", ":" + Quoted("temporary", "}")) else "]}"
  }

  function TextList(texts: seq<string>, rest: string): string {
    if texts == [] then rest
    else if |texts| == 1 then Quoted(texts[0], rest)
    else Quoted(texts[0], "," + TextList(texts[1..], rest))
  }

  function Encodings(ds: seq<seq<Byte>>): (ts: seq<string>)
    ensures |ts| == |ds| && forall i :: 0 <= i < |ts| ==> ts[i] == Encode(ds[i])
  {
    seq(|ds|, i requires 0 <= i < |ds| => Encode(ds[i]))
  }

  /** `{"kids":["...",...]}` with blanks behind the colon; the type member is optional. */
  function KidsText(gap: string, kids: seq<seq<Byte>>, typed: bool): string {
    "{" + Quoted("kids", Behind("", gap, "[" + TextList(Encodings(kids), Trailer(typed))))
  }

  /** `{"kids":["...",...]}`, and with the type member the license request. */
  function KidsMessage(kids: seq<seq<Byte>>, typed: bool): string {
    KidsText("", kids, typed)
  }

  /** A string member of a JSON object: `"name":`, blanks, `"value"`. */
  datatype Field = Field(name: string, gap: string, value: string)

  function FieldText(f: Field, rest: string): string {
    Quoted(f.name, Behind("", f.gap, Quoted(f.value, rest)))
  }

  function FieldList(fields: seq<Field>, rest: string): string {
    if fields == [] then rest
    else if |fields| == 1 then FieldText(fields[0], rest)
    else FieldText(fields[0], "," + FieldList(fields[1..], rest))
  }

  function ObjectText(fields: seq<Field>, rest: string): string {
    "{" + FieldList(fields, "}" + rest)
  }

  function ObjectList(objects: seq<seq<Field>>, rest: string): string {
    if objects == [] then rest
    else if |objects| == 1 then ObjectText(objects[0], rest)
    else ObjectText(objects[0], "," + ObjectList(objects[1..], rest))
  }

  /** `{"keys":[{...},...]}`, optionally with the type member. */
  function JwkSet(objects: seq<seq<Field>>, typed: bool): string {
    "{" + Quoted("keys", ":[" + ObjectList(objects, Trailer(typed)))
  }

  /** `{"kty":"oct","kid":"...","k":"..."}` */
  function KeyObject(pair: Pair): seq<Field> {
    [Field("kty", "", "oct"), Field("kid", "", Encode(pair.0)), Field("k", "", Encode(pair.1))]
  }

  function KeyObjects(pairs: seq<Pair>): (objects: seq<seq<Field>>)
    ensures |objects| == |pairs|
  {
    seq(|pairs|, i requires 0 <= i < |pairs| => KeyObject(pairs[i]))
  }

  // ---- License responses ----

  lemma EncodingChars(d: seq<Byte>)
    ensures QuoteFree(Encode(d))
    ensures forall i :: 0 <= i < |Encode(d)| ==> Encode(d)[i] != ']' && Encode(d)[i] != ':' && Encode(d)[i] != ','
  {
    var t := Encode(d);
    assert forall i :: 0 <= i < |t| ==> CharValue(t[i]) >= 0;
  }

  /** No encoding is the text `k` (one character) or `kid` (its unused trailing bits are 01). */
  lemma NeverAFieldName(d: seq<Byte>)
    ensures Encode(d) != "k" && Encode(d) != "kid"
  {
    EncodeIsCanonical(d);
    if Encode(d) == "kid" {
      LastSextetEven("kid");
    }
  }

  /** The last bit of the last sextet is the last bit of all. */
  lemma LastBit(vs: seq<Sextet>)
    requires vs != []
    ensures var b := BitStrings.Unpack(vs, 6); |b| == 6 * |vs| && b[|b| - 1] == (vs[|vs| - 1] % 2 == 1)
  {
    var front, last := vs[..|vs| - 1], vs[|vs| - 1];
    assert vs == front + [last];
    BitStrings.UnpackAppend(front, [last], 6);
    BitStrings.UnpackLength(vs, 6);
    assert BitStrings.Unpack([last], 6) == BitStrings.ToBits(last, 6) + [];
  }

  /** A canonical text of length 3 modulo 4 ends in a sextet with a zero low bit. */
  lemma LastSextetEven(t: string)
    requires Canonical(t) && |t| % 4 == 3
    ensures CharValue(t[|t| - 1]) % 2 == 0
  {
    hide BitStrings.Unpack;
    LastBit(Values(t));
    var b := BitStrings.Unpack(Values(t), 6);
    assert b[|b| - 1] == TrailingBits(t)[|TrailingBits(t)| - 1];
  }

  /** Text the scanner does not take for a field name, with nothing but blanks behind the colon. */
  ghost predicate Readable(f: Field) {
    QuoteFree(f.name) && QuoteFree(f.value) && f.value != "kid" && f.value != "k" && Gap(f.gap)
  }

  /** The values of the members named `key`, in order. */
  function Named(fields: seq<Field>, key: string): seq<string> {
    if fields == [] then []
    else (if fields[0].name == key then [fields[0].value] else []) + Named(fields[1..], key)
  }

  function AllNamed(objects: seq<seq<Field>>, key: string): seq<string> {
    if objects == [] then [] else Named(objects[0], key) + AllNamed(objects[1..], key)
  }

  ghost predicate AllReadable(fields: seq<Field>) {
    forall i :: 0 <= i < |fields| ==> Readable(fields[i])
  }

  /** The member named `key` is read. */
  lemma HitField(pre: string, f: Field, rest: string)
    requires QuoteFree(pre) && Readable(f)
    ensures ScanFields(pre + FieldText(f, rest), 0, f.name) == [f.value] + ScanFields(rest, 0, f.name)
  {
    hide Quoted;
    hide Behind;
    hide ScanFields;
    hide AfterKey;
    HitKey(pre, f.name, Behind("", f.gap, Quoted(f.value, rest)));
    StringBehind("", f.gap, f.value, rest, f.name);
  }

  /** A member with another name is passed over. */
  lemma SkipField(pre: string, f: Field, rest: string, key: string)
    requires QuoteFree(pre) && Readable(f) && key in {"kid", "k"} && f.name != key
    requires rest != "" && rest[0] != 'k'
    ensures ScanFields(pre + FieldText(f, rest), 0, key) == ScanFields(rest, 0, key)
  {
    hide Quoted;
    hide ScanFields;
    SkipQuoted(pre, f.name, Behind("", f.gap, Quoted(f.value, rest)), key);
    BehindStart(f.gap, Quoted(f.value, rest));
    SkipQuoted(":" + f.gap, f.value, rest, key);
  }

  /** Scanning the members of an object yields those named `key`, whatever their order. */
  lemma {:induction false} ScanFieldList(pre: string, fields: seq<Field>, rest: string, key: string)
    requires QuoteFree(pre) && AllReadable(fields) && key in {"kid", "k"}
    requires rest != "" && rest[0] != 'k'
    ensures ScanFields(pre + FieldList(fields, rest), 0, key)
         == Named(fields, key) + ScanFields((if fields == [] then pre else "") + rest, 0, key)
    decreases |fields|
  {
    hide ScanFields;
    hide FieldText;
    if fields != [] {
      var tail := (if |fields| == 1 then "" else ",") + FieldList(fields[1..], rest);
      assert "" + rest == rest;
      assert FieldList(fields, rest) == FieldText(fields[0], tail);
      if fields[0].name == key {
        HitField(pre, fields[0], tail);
      } else {
        SkipField(pre, fields[0], tail, key);
      }
      ScanFieldList(if |fields| == 1 then "" else ",", fields[1..], rest, key);
    }
  }

  lemma ScanTrailer(pre: string, typed: bool, key: string)
    requires QuoteFree(pre) && key in {"kid", "k", "kids"}
    ensures ScanFields(pre + Trailer(typed), 0, key) == []
  {
    if typed {
      Reassociate(pre, "],", Quoted("type", ":" + Quoted("temporary", "}")));
      SkipQuoted(pre + "],", "type", ":" + Quoted("temporary", "}"), key);
      SkipQuoted(":", "temporary", "}", key);
      NoNeedle("}", key);
    } else {
      NoNeedle(pre + "]}", key);
    }
  }

  function Firsts(pairs: seq<Pair>): (ds: seq<seq<Byte>>)
    ensures |ds| == |pairs|
  {
    seq(|pairs|, i requires 0 <= i < |pairs| => pairs[i].0)
  }

  function Seconds(pairs: seq<Pair>): (ds: seq<seq<Byte>>)
    ensures |ds| == |pairs|
  {
    seq(|pairs|, i requires 0 <= i < |pairs| => pairs[i].1)
  }

  lemma {:induction false} ScanObjects(pre: string, objects: seq<seq<Field>>, typed: bool, key: string)
    requires QuoteFree(pre) && key in {"kid", "k"}
    requires forall i :: 0 <= i < |objects| ==> AllReadable(objects[i])
    ensures ScanFields(pre + ObjectList(objects, Trailer(typed)), 0, key) == AllNamed(objects, key)
    decreases |objects|
  {
    hide ScanFields;
    hide Trailer;
    hide FieldList;
    hide Readable;
    if objects == [] {
      ScanTrailer(pre, typed, key);
    } else {
      var fields, last := objects[0], |objects| == 1;
      var rest := if last then Trailer(typed) else "," + ObjectList(objects[1..], Trailer(typed));
      var open := if fields == [] then pre + "{" else "";
      Reassociate(pre, "{", FieldList(fields, "}" + rest));
      ScanFieldList(pre + "{", fields, "}" + rest, key);
      assert open + ("}" + rest) == (open + if last then "}" else "},") + ObjectList(objects[1..], Trailer(typed));
      ScanObjects(open + if last then "}" else "},", objects[1..], typed, key);
    }
  }

  /**
   One object per pair with the pair's encodings as its `kid` and `k`: members in any order, any
   further members, any blanks behind the colons.
   */
  ghost predicate Describes(objects: seq<seq<Field>>, pairs: seq<Pair>) {
    |objects| == |pairs| && forall i :: 0 <= i < |pairs| ==> DescribesPair(objects[i], pairs[i])
  }

  ghost predicate DescribesPair(fields: seq<Field>, pair: Pair) {
    AllReadable(fields) && Named(fields, "kid") == [Encode(pair.0)] && Named(fields, "k") == [Encode(pair.1)]
  }

  lemma {:induction false} DescribedNames(objects: seq<seq<Field>>, pairs: seq<Pair>)
    requires Describes(objects, pairs)
    ensures AllNamed(objects, "kid") == Encodings(Firsts(pairs)) && AllNamed(objects, "k") == Encodings(Seconds(pairs))
    decreases |pairs|
  {
    hide Encode;
    hide Named;
    hide AllReadable;
    if pairs != [] {
      assert DescribesPair(objects[0], pairs[0]);
      DescribedNames(objects[1..], pairs[1..]);
      assert Encodings(Firsts(pairs)) == [Encode(pairs[0].0)] + Encodings(Firsts(pairs[1..]));
      assert Encodings(Seconds(pairs)) == [Encode(pairs[0].1)] + Encodings(Seconds(pairs[1..]));
    }
  }

  /** Scanning a printed JWK Set gives back exactly its kids and its keys, in order. */
  lemma ScanInvertsJwkPrint(objects: seq<seq<Field>>, pairs: seq<Pair>, typed: bool)
    requires Describes(objects, pairs)
    ensures ScanFields(JwkSet(objects, typed), 0, "kid") == Encodings(Firsts(pairs))
    ensures ScanFields(JwkSet(objects, typed), 0, "k") == Encodings(Seconds(pairs))
  {
    hide ScanFields;
    hide ObjectList;
    hide Encodings;
    hide Named;
    var list := ObjectList(objects, Trailer(typed));
    SkipQuoted("{", "keys", ":[" + list, "kid");
    SkipQuoted("{", "keys", ":[" + list, "k");
    ScanObjects(":[", objects, typed, "kid");
    ScanObjects(":[", objects, typed, "k");
    DescribedNames(objects, pairs);
  }

  /** The plain shape describes its pairs: no encoding is a field name. */
  lemma KeyObjectsDescribe(pairs: seq<Pair>)
    ensures Describes(KeyObjects(pairs), pairs)
  {
    forall i | 0 <= i < |pairs| ensures DescribesPair(KeyObjects(pairs)[i], pairs[i]) {
      KeyObjectDescribes(pairs[i]);
    }
  }

  lemma NamedThree(a: Field, b: Field, c: Field, key: string)
    ensures Named([a, b, c], key) == Named([a], key) + Named([b], key) + Named([c], key)
  {
    assert [a, b, c][1..] == [b, c] && [b, c][1..] == [c];
  }

  lemma KeyObjectReadable(pair: Pair)
    ensures AllReadable(KeyObject(pair))
  {
    hide Encode;
    NeverAFieldName(pair.0);
    NeverAFieldName(pair.1);
    EncodingChars(pair.0);
    EncodingChars(pair.1);
    var fields := KeyObject(pair);
    assert Readable(fields[0]) && Readable(fields[1]) && Readable(fields[2]);
  }

  lemma KeyObjectDescribes(pair: Pair)
    ensures DescribesPair(KeyObject(pair), pair)
  {
    hide Encode;
    hide AllReadable;
    KeyObjectReadable(pair);
    var fields := KeyObject(pair);
    NamedThree(fields[0], fields[1], fields[2], "kid");
    NamedThree(fields[0], fields[1], fields[2], "k");
  }

  // ---- Key-id init data and license requests ----

  /** Texts the list printers are used with. */
  ghost predicate Plain(texts: seq<string>) {
    forall i :: 0 <= i < |texts| ==> InAlphabet(texts[i])
  }

  lemma PlainChars(t: string)
    requires InAlphabet(t)
    ensures QuoteFree(t)
    ensures forall i :: 0 <= i < |t| ==> t[i] != ']' && t[i] != ':'
  {
    assert forall i :: 0 <= i < |t| ==> CharValue(t[i]) >= 0;
  }

  /** Neither a closing bracket nor a colon among the first `n` characters. */
  ghost predicate Clear(s: string, n: nat) {
    n <= |s| && forall j :: 0 <= j < n ==> s[j] != ']' && s[j] != ':'
  }

  lemma ClearQuoted(p: string, x: string, tail: string, m: nat)
    requires Clear(p, |p|) && InAlphabet(x) && Clear(tail, m)
    ensures Clear(p + Quoted(x, tail), |p| + |x| + 2 + m)
    ensures (p + Quoted(x, tail))[|p| + |x| + 2 + m..] == tail[m..]
  {
    PlainChars(x);
    QuotedParts(p, x, tail);
    var s, n := p + Quoted(x, tail), |p| + |x| + 2;
    forall j | 0 <= j < n + m ensures s[j] != ']' && s[j] != ':' {
      if j < |p| {
        assert s[j] == p[j];
      } else if |p| < j <= |p| + |x| {
        assert s[j] == x[j - |p| - 1];
      } else if j >= n {
        assert s[j] == tail[j - n];
      }
    }
    assert s[n + m..] == s[n..][m..];
  }

  /** The list ends where the rest begins; before that there is neither a bracket nor a colon. */
  lemma {:induction false} ListExtent(p: string, texts: seq<string>, rest: string) returns (n: nat)
    requires Plain(texts) && Clear(p, |p|)
    ensures Clear(p + TextList(texts, rest), n) && (p + TextList(texts, rest))[n..] == rest
    decreases |texts|
  {
    hide Quoted;
    if texts == [] {
      n := |p|;
    } else if |texts| == 1 {
      ClearQuoted(p, texts[0], rest, 0);
      n := |p| + |texts[0]| + 2;
    } else {
      var m := ListExtent(",", texts[1..], rest);
      ClearQuoted(p, texts[0], "," + TextList(texts[1..], rest), m);
      n := |p| + |texts[0]| + 2 + m;
    }
  }

  /** What follows the first text of a list. */
  function ListTail(texts: seq<string>, rest: string): string
    requires texts != []
  {
    (if |texts| == 1 then "" else ",") + TextList(texts[1..], rest)
  }

  lemma ListSplits(texts: seq<string>, rest: string)
    requires texts != []
    ensures TextList(texts, rest) == Quoted(texts[0], ListTail(texts, rest))
  {
    assert "" + rest == rest;
  }

  /** Everything quoted in the list is a member; what opens behind the bracket is not. */
  lemma {:induction false} ListMembers(pre: string, texts: seq<string>, rest: string) returns (end: nat)
    requires Plain(texts) && QuoteFree(pre)
    ensures end + 1 + |rest| == |pre + TextList(texts, "]" + rest)|
    ensures Members(pre + TextList(texts, "]" + rest), 0, Some(end)) == texts
    decreases |texts|
  {
    hide Members;
    hide Quoted;
    if texts == [] {
      end := |pre|;
      NoMember(pre, rest);
    } else {
      var x, tail := texts[0], ListTail(texts, "]" + rest);
      ListSplits(texts, "]" + rest);
      PlainChars(x);
      var e := ListMembers(if |texts| == 1 then "" else ",", texts[1..], rest);
      MemberStep(pre, x, tail, e);
      QuotedParts(pre, x, tail);
      end := |pre| + |x| + 2 + e;
    }
  }

  /** Field-wise scanning of a list that does not contain the key passes it over. */
  lemma {:induction false} ScanPastList(pre: string, texts: seq<string>, rest: string, key: string)
    requires Plain(texts) && QuoteFree(pre) && QuoteFree(key) && key !in texts && texts != []
    requires key != "" && key[0] != ',' && (rest == "" || rest[0] != key[0])
    ensures ScanFields(pre + TextList(texts, rest), 0, key) == ScanFields(rest, 0, key)
    decreases |texts|
  {
    hide ScanFields;
    PlainChars(texts[0]);
    if |texts| == 1 {
      SkipQuoted(pre, texts[0], rest, key);
    } else {
      var tail := TextList(texts[1..], rest);
      SkipQuoted(pre, texts[0], "," + tail, key);
      ScanPastList(",", texts[1..], rest, key);
    }
  }

  /** The first list member equal to the key is taken for the field name. */
  lemma {:induction false} ScanHitsList(pre: string, texts: seq<string>, rest: string, key: string)
    returns (pre': string, texts': seq<string>)
    requires Plain(texts) && QuoteFree(pre) && QuoteFree(key) && key in texts
    requires key != "" && key[0] != ','
    ensures Plain(texts') && (pre' == "" || pre' == ",")
    ensures ScanFields(pre + TextList(texts, rest), 0, key) == AfterKey(pre' + TextList(texts', rest), 0, key)
    decreases |texts|
  {
    hide ScanFields;
    hide AfterKey;
    PlainChars(texts[0]);
    texts' := texts[1..];
    pre' := if texts' == [] then "" else ",";
    var tail := pre' + TextList(texts', rest);
    assert TextList(texts, rest) == Quoted(texts[0], tail);
    if texts[0] == key {
      HitKey(pre, key, tail);
    } else {
      assert key in texts';
      SkipQuoted(pre, texts[0], tail, key);
      pre', texts' := ScanHitsList(",", texts[1..], rest, key);
    }
  }

  /** What a `kids` value inside its own array makes the scanner collect in addition. */
  function Stray(texts: seq<string>, typed: bool): seq<string> {
    if "kids" in texts && typed then ["temporary"] else []
  }

  /** The array of a kid list, seen from its colon, and what is read of it field-wise. */
  lemma ScanBehindList(gap: string, texts: seq<string>, typed: bool)
    requires Plain(texts) && texts != [] && Gap(gap)
    ensures ScanFields(Behind("", gap, "[" + TextList(texts, Trailer(typed))), 0, "kids") == Stray(texts, typed)
  {
    hide ScanFields;
    hide AfterKey;
    hide TextList;
    var rest := Trailer(typed);
    var pre := ListStart(gap, TextList(texts, rest));
    if "kids" !in texts {
      ScanPastList(pre, texts, rest, "kids");
      assert "" + rest == rest;
      ScanTrailer("", typed, "kids");
    } else {
      var pre', texts' := ScanHitsList(pre, texts, rest, "kids");
      var n := ListExtent(pre', texts', rest);
      BehindStray(pre' + TextList(texts', rest), n, typed, "kids");
    }
  }

  lemma ListStart(gap: string, list: string) returns (pre: string)
    requires Gap(gap)
    ensures QuoteFree(pre) && Behind("", gap, "[" + list) == pre + list
  {
    pre := ":" + gap + "[";
  }

  /** Behind a list member taken for the field name, the next colon is the type member's, if any. */
  lemma BehindStray(t: string, n: nat, typed: bool, key: string)
    requires Clear(t, n) && t[n..] == Trailer(typed)
    ensures AfterKey(t, 0, key) == if typed then ["temporary"] else []
  {
    hide AfterKey;
    if typed {
      TrailerValue(t, n, Trailer(true), key);
    } else {
      assert forall j :: n <= j < |t| ==> t[j] == t[n..][j - n];
      NoColon(t, key);
    }
  }

  /** The type member starts its value at position 8 of the trailer. */
  lemma TypedTrailer()
    ensures |Trailer(true)| > 8 && Trailer(true)[8..] == ":" + Quoted("temporary", "}")
    ensures forall j :: 0 <= j < 8 ==> Trailer(true)[j] != ':'
  {
    QuotedParts("],", "type", ":" + Quoted("temporary", "}"));
  }

  lemma ColonFreeFront(t: string, n: nat, u: string, k: nat)
    requires n <= |t| && t[n..] == u && k < |u|
    requires (forall j :: 0 <= j < n ==> t[j] != ':') && forall j :: 0 <= j < k ==> u[j] != ':'
    ensures n + k < |t| && t[n + k..] == u[k..] && forall j :: 0 <= j < n + k ==> t[j] != ':'
  {
    forall j | n <= j < n + k ensures t[j] != ':' {
      assert t[j] == u[j - n];
    }
  }

  lemma LastValue(t: string, i: nat, v: string, rest: string, key: string)
    requires i < |t| && t[i..] == ":" + Quoted(v, rest) && QuoteFree(v) && QuoteFree(rest)
    requires forall j :: 0 <= j < i ==> t[j] != ':'
    ensures AfterKey(t, 0, key) == [v]
  {
    hide ScanFields;
    hide AfterKey;
    hide Quoted;
    assert "" + Quoted(v, rest) == Quoted(v, rest);
    assert t == t[..i] + t[i..] == Behind(t[..i], "", Quoted(v, rest));
    StringBehind(t[..i], "", v, rest, key);
    NoNeedle(rest, key);
  }

  lemma PlainLiterals()
    ensures QuoteFree("temporary") && QuoteFree("}")
  {
  }

  /** Behind a list without colons, the trailer's type member is the value found. */
  lemma TrailerValue(t: string, n: nat, trailer: string, key: string)
    requires n <= |t| && t[n..] == trailer && trailer == Trailer(true) && forall j :: 0 <= j < n ==> t[j] != ':'
    ensures AfterKey(t, 0, key) == ["temporary"]
  {
    hide AfterKey;
    hide Trailer;
    hide Quoted;
    hide QuoteFree;
    TypedTrailer();
    PlainLiterals();
    ColonFreeFront(t, n, trailer, 8);
    LastValue(t, n + 8, "temporary", "}", key);
  }

  /** The value of the `kids` field is the list, blanks behind the colon or not. */
  lemma ListValue(gap: string, texts: seq<string>, rest: string)
    requires Plain(texts) && Gap(gap)
    ensures var t := Behind("", gap, "[" + TextList(texts, "]" + rest));
            AfterKey(t, 0, "kids") == texts + ScanFields(t, 0, "kids")
  {
    hide Find;
    hide AfterKey;
    hide ScanFields;
    hide Members;
    hide TextList;
    hide Behind;
    var list := TextList(texts, "]" + rest);
    var s := "[" + list;
    ArrayBehind("", gap, list, "kids");
    var n := ListExtent("[", texts, "]" + rest);
    assert s[n] == s[n..][0] == ']';
    FindChar(s, ']', 0, n);
    var end := ListMembers("[", texts, rest);
    assert n == end;
  }

  /**
   What scanning a kid list message yields, blanks behind its colon or not: its texts, and a stray
   value in one case.
   */
  lemma ScanKidsMessage(gap: string, kids: seq<seq<Byte>>, typed: bool)
    requires kids != [] && Gap(gap)
    ensures ScanFields(KidsText(gap, kids, typed), 0, "kids") == Encodings(kids) + Stray(Encodings(kids), typed)
  {
    hide ScanFields;
    hide AfterKey;
    hide TextList;
    hide Behind;
    var texts := Encodings(kids);
    HitKey("{", "kids", Behind("", gap, "[" + TextList(texts, Trailer(typed))));
    assert Trailer(typed) == "]" + Trailer(typed)[1..];
    ListValue(gap, texts, Trailer(typed)[1..]);
    ScanBehindList(gap, texts, typed);
  }

  /** A license request says `temporary` under `type`, whatever its key ids. */
  lemma RequestHasType(kids: seq<seq<Byte>>)
    requires kids != []
    ensures ScanFields(KidsMessage(kids, true), 0, "type") == ["temporary"]
  {
    hide ScanFields;
    hide AfterKey;
    hide TextList;
    var texts, rest := Encodings(kids), Trailer(true);
    SkipQuoted("{", "kids", Behind("", "", "[" + TextList(texts, rest)), "type");
    var pre := ListStart("", TextList(texts, rest));
    if "type" in texts {
      var pre', texts' := ScanHitsList(pre, texts, rest, "type");
      var n := ListExtent(pre', texts', rest);
      BehindStray(pre' + TextList(texts', rest), n, true, "type");
    } else {
      ScanPastList(pre, texts, rest, "type");
      HitKey("],", "type", ":" + Quoted("temporary", "}"));
      TypeValue();
    }
  }

  lemma TypeValue()
    ensures AfterKey(":" + Quoted("temporary", "}"), 0, "type") == ["temporary"]
  {
    hide AfterKey;
    hide Quoted;
    PlainLiterals();
    var t := ":" + Quoted("temporary", "}");
    assert t[0..] == t;
    LastValue(t, 0, "temporary", "}", "type");
  }

  // ---- The printed text ----

  /** The list of a message: every text quoted, commas in between. */
  function ListText(kids: seq<seq<Byte>>): string {
    TextList(Encodings(kids), "")
  }

  lemma {:induction false} ListEnds(texts: seq<string>, rest: string)
    ensures TextList(texts, rest) == TextList(texts, "") + rest
  {
    if texts != [] {
      ListSplits(texts, rest);
      ListSplits(texts, "");
      ListEnds(texts[1..], rest);
    }
  }

  lemma {:induction false} ListJoins(a: seq<string>, b: seq<string>)
    requires a != [] && b != []
    ensures TextList(a + b, "") == TextList(a, "") + "," + TextList(b, "")
  {
    ListSplits(a + b, "");
    ListSplits(a, "");
    assert (a + b)[0] == a[0] && (a + b)[1..] == a[1..] + b;
    if |a| > 1 {
      ListJoins(a[1..], b);
    } else {
      assert a[1..] + b == b;
    }
  }

  /** A message is its opening, the list of its key ids, and its end, character by character. */
  lemma MessageText(kids: seq<seq<Byte>>)
    ensures KidsMessage(kids, true) == "{\"kids\":[" + ListText(kids) + "],\"type\":\"temporary\"}"
    ensures KidsMessage(kids, false) == "{\"kids\":[" + ListText(kids) + "]}"
  {
    hide TextList;
    var texts := Encodings(kids);
    ListEnds(texts, Trailer(true));
    ListEnds(texts, Trailer(false));
    assert Trailer(true) == "],\"type\":\"temporary\"}";
    assert Trailer(false) == "]}";
  }

  /** The list text: one key id is its quoted encoding, and lists are joined by a comma. */
  lemma ListTextJoins(a: seq<seq<Byte>>, b: seq<seq<Byte>>, kid: seq<Byte>)
    ensures ListText([kid]) == "\"" + Encode(kid) + "\""
    ensures a != [] && b != [] ==> ListText(a + b) == ListText(a) + "," + ListText(b)
  {
    hide Encode;
    assert Encodings([kid]) == [Encode(kid)];
    if a != [] && b != [] {
      assert Encodings(a + b) == Encodings(a) + Encodings(b);
      ListJoins(Encodings(a), Encodings(b));
    }
  }

  lemma {:induction false} ListLength(texts: seq<string>, a: string, b: string)
    ensures |TextList(texts, a)| - |a| == |TextList(texts, b)| - |b|
  {
    if texts != [] {
      ListSplits(texts, a);
      ListSplits(texts, b);
      ListLength(texts[1..], a, b);
    }
  }

  /** The license request is 19 characters longer than plain init data for the same key ids. */
  lemma RequestLength(kids: seq<seq<Byte>>)
    ensures |KidsMessage(kids, true)| == |KidsMessage(kids, false)| + 19
  {
    ListLength(Encodings(kids), Trailer(true), Trailer(false));
  }
}
