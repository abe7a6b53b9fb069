/**
 What the scanner reads, by the shape of the text. Every text has one of these shapes
 (`TextShape`, `ValueShape`), so the laws leave nothing of the scanner open.
 */
module ScanLaws {
  import opened Basics
  import opened StdString
  import opened JsonScan

  /** `"x"` and what follows. */
  function Quoted(x: string, rest: string): string {
    "\"" + (x + ("\"" + rest))
  }

  ghost predicate QuoteFree(s: string) {
    forall i :: 0 <= i < |s| ==> s[i] != '"'
  }

  /** A key needle starts at a quote, ends at a quote, and holds the key between them. */
  lemma NeedleAt(s: string, key: string, j: nat)
    ensures OccursAt(s, Needle(key), j) <==>
            j + |key| + 2 <= |s| && s[j] == '"' && s[j + 1..j + 1 + |key|] == key && s[j + 1 + |key|] == '"'
  {
    if j + |key| + 2 <= |s| {
      var w := s[j..j + |key| + 2];
      assert w == [s[j]] + s[j + 1..j + 1 + |key|] + [s[j + 1 + |key|]];
      assert Needle(key)[0] == '"' && Needle(key)[|key| + 1] == '"' && Needle(key)[1..|key| + 1] == key;
    }
  }

  lemma QuotedParts(p: string, x: string, rest: string)
    ensures var s := p + Quoted(x, rest);
            |s| == |p| + |x| + 2 + |rest| && s[|p|] == '"' && s[|p| + 1 + |x|] == '"'
            && s[..|p|] == p && s[|p| + 1..|p| + 1 + |x|] == x && s[|p| + |x| + 2..] == rest
  {
  }

  /** Quoted text other than the key is passed over. */
  lemma SkipQuoted(p: string, x: string, rest: string, key: string)
    requires QuoteFree(p) && QuoteFree(x) && QuoteFree(key) && x != key && key != ""
    requires rest == "" || rest[0] != key[0]
    ensures ScanFields(p + Quoted(x, rest), 0, key) == ScanFields(rest, 0, key)
  {
    hide Find;
    hide Quoted;
    hide Needle;
    hide OccursAt;
    hide ScanFields;
    var s, n := p + Quoted(x, rest), |p| + |x| + 2;
    QuotedParts(p, x, rest);
    forall j | 0 <= j < n ensures !OccursAt(s, Needle(key), j) {
      NotHere(p, x, rest, key, j);
    }
    FindSkip(s, Needle(key), 0, n);
    ScanFrom(s, 0, n, key);
    ScanDrop(s, n, 0, key);
  }

  lemma NotHere(p: string, x: string, rest: string, key: string, j: nat)
    requires QuoteFree(p) && QuoteFree(x) && QuoteFree(key) && x != key && key != ""
    requires rest == "" || rest[0] != key[0]
    requires j < |p| + |x| + 2
    ensures !OccursAt(p + Quoted(x, rest), Needle(key), j)
  {
    var s := p + Quoted(x, rest);
    QuotedParts(p, x, rest);
    NeedleAt(s, key, j);
    if j < |p| {
      assert s[j] == p[j];
    } else if j == |p| {
      assert |key| < |x| ==> s[j + 1 + |key|] == x[|key|];
    } else if j < |p| + 1 + |x| {
      assert s[j] == x[j - |p| - 1];
    } else if rest != "" {
      assert s[j + 1] == rest[0];
    }
  }

  lemma NoQuoteBetween(t: string, a: nat, v: string)
    requires a + |v| <= |t| && t[a..a + |v|] == v && QuoteFree(v)
    ensures forall j :: a <= j < a + |v| ==> t[j] != '"'
  {
    forall j | a <= j < a + |v| ensures t[j] != '"' {
      assert t[j] == v[j - a];
    }
  }

  /** A quoted value at position `o`. */
  lemma QuotedAt(t: string, o: nat, v: string, rest: string)
    requires o <= |t| && t[o..] == Quoted(v, rest)
    ensures o + |v| + 2 + |rest| == |t| && t[o] == '"' && t[o + 1 + |v|] == '"'
    ensures t[o + 1..o + 1 + |v|] == v && t[o + |v| + 2..] == rest
  {
    var u := t[o..];
    QuotedParts("", v, rest);
    assert "" + Quoted(v, rest) == Quoted(v, rest);
    assert t[o] == u[0] && t[o + 1 + |v|] == u[1 + |v|];
    assert t[o + 1..o + 1 + |v|] == u[1..1 + |v|];
    assert t[o + |v| + 2..] == u[|v| + 2..];
  }

  lemma Reassociate(pre: string, a: string, b: string)
    ensures pre + (a + b) == (pre + a) + b
  {
  }

  // ---- Where a field is found ----

  /** The quoted `key` stands at position `j`. */
  ghost predicate Stands(s: string, j: nat, key: string) {
    j + |key| + 2 <= |s| && s[j] == '"' && s[j + 1..j + 1 + |key|] == key && s[j + 1 + |key|] == '"'
  }

  /** The first place of the quoted key is right behind `pre`. */
  ghost predicate FirstPlace(pre: string, key: string, rest: string) {
    forall j :: 0 <= j < |pre| ==> !Stands(pre + Quoted(key, rest), j, key)
  }

  /** Without the quoted key there is nothing to read. */
  lemma NoField(s: string, key: string)
    requires forall j :: 0 <= j < |s| ==> !Stands(s, j, key)
    ensures ScanFields(s, 0, key) == []
  {
    FindFirst(s, Needle(key), 0);
    forall j: nat ensures !OccursAt(s, Needle(key), j) {
      NeedleAt(s, key, j);
      assert j < |s| ==> !Stands(s, j, key);
    }
  }

  lemma NoNeedle(s: string, key: string)
    requires QuoteFree(s)
    ensures ScanFields(s, 0, key) == []
  {
    NoField(s, key);
  }

  lemma FieldFound(pre: string, key: string, rest: string)
    requires FirstPlace(pre, key, rest)
    ensures ScanFields(pre + Quoted(key, rest), 0, key) == AfterKey(rest, 0, key)
  {
    hide Find;
    hide Quoted;
    hide ScanFields;
    hide AfterKey;
    var s := pre + Quoted(key, rest);
    QuotedParts(pre, key, rest);
    forall j: nat | j < |pre| ensures !OccursAt(s, Needle(key), j) {
      NeedleAt(s, key, j);
      assert !Stands(s, j, key);
    }
    NeedleAt(s, key, |pre|);
    FindIs(s, Needle(key), 0, |pre|);
    ScanHit(s, 0, key, |pre|);
    AfterKeyDrop(s, |pre| + |key| + 2, 0, key);
  }

  /** The first quoted text is the key. */
  lemma HitKey(p: string, key: string, rest: string)
    requires QuoteFree(p)
    ensures ScanFields(p + Quoted(key, rest), 0, key) == AfterKey(rest, 0, key)
  {
    hide ScanFields;
    hide AfterKey;
    assert FirstPlace(p, key, rest) by {
      assert forall j :: 0 <= j < |p| ==> (p + Quoted(key, rest))[j] == p[j];
    }
    FieldFound(p, key, rest);
  }

  // ---- What is read behind the field name ----

  ghost predicate Gap(g: string) {
    forall i :: 0 <= i < |g| ==> g[i] == ' ' || g[i] == '\t' || g[i] == '\n'
  }

  ghost predicate ColonFree(s: string) {
    forall i :: 0 <= i < |s| ==> s[i] != ':'
  }

  /** Text without a colon, a colon, blanks, and then `x`. */
  function Behind(mid: string, gap: string, x: string): string {
    mid + (":" + (gap + x))
  }

  lemma BehindStart(gap: string, x: string)
    ensures Behind("", gap, x) == (":" + gap) + x
  {
  }

  ghost predicate Shape(pre: string, key: string, mid: string, gap: string, x: string) {
    FirstPlace(pre, key, Behind(mid, gap, x)) && ColonFree(mid) && Gap(gap)
  }

  /** Where the scanner looks for the value. */
  lemma ValueStart(mid: string, gap: string, x: string)
    requires ColonFree(mid) && Gap(gap) && (x == "" || (x[0] != ' ' && x[0] != '\t' && x[0] != '\n'))
    ensures var t, o := Behind(mid, gap, x), |mid| + 1 + |gap|;
            && |t| == o + |x| && t[|mid|] == ':' && t[o..] == x
            && Find(t, ":", 0) == Some(|mid|) && SkipBlanks(t, |mid| + 1) == o
  {
    hide Find;
    hide SkipBlanks;
    var t, o := Behind(mid, gap, x), |mid| + 1 + |gap|;
    assert forall j :: 0 <= j < |mid| ==> t[j] == mid[j];
    assert t[|mid|] == ':' && t[o..] == x;
    FindChar(t, ':', 0, |mid|);
    assert forall j :: |mid| + 1 <= j < o ==> t[j] == gap[j - |mid| - 1];
    assert x != "" ==> t[o] == x[0];
    BlanksSkipped(t, |mid| + 1, o);
  }

  /** A quoted value is read, and reading goes on behind it. */
  lemma FieldOfString(pre: string, key: string, mid: string, gap: string, v: string, rest: string)
    requires Shape(pre, key, mid, gap, Quoted(v, rest)) && QuoteFree(v)
    ensures ScanFields(pre + Quoted(key, Behind(mid, gap, Quoted(v, rest))), 0, key) == [v] + ScanFields(rest, 0, key)
  {
    hide ScanFields;
    hide AfterKey;
    hide Behind;
    hide FirstPlace;
    FieldFound(pre, key, Behind(mid, gap, Quoted(v, rest)));
    StringBehind(mid, gap, v, rest, key);
  }

  lemma StringBehind(mid: string, gap: string, v: string, rest: string, key: string)
    requires ColonFree(mid) && Gap(gap) && QuoteFree(v)
    ensures AfterKey(Behind(mid, gap, Quoted(v, rest)), 0, key) == [v] + ScanFields(rest, 0, key)
  {
    hide Find;
    hide SkipBlanks;
    hide Behind;
    hide ScanFields;
    hide AfterKey;
    var t, o := Behind(mid, gap, Quoted(v, rest)), |mid| + 1 + |gap|;
    ValueStart(mid, gap, Quoted(v, rest));
    QuotedAt(t, o, v, rest);
    var close := o + 1 + |v|;
    NoQuoteBetween(t, o + 1, v);
    FindChar(t, '"', o + 1, close);
    AfterKeyString(t, 0, key, |mid|, o, close);
    ScanDrop(t, close + 1, 0, key);
  }

  /** A value without its closing quote ends the scan. */
  lemma FieldUnclosed(pre: string, key: string, mid: string, gap: string, v: string)
    requires Shape(pre, key, mid, gap, "\"" + v) && QuoteFree(v)
    ensures ScanFields(pre + Quoted(key, Behind(mid, gap, "\"" + v)), 0, key) == []
  {
    hide Find;
    hide SkipBlanks;
    hide Behind;
    hide FirstPlace;
    hide ScanFields;
    hide AfterKey;
    var t, o := Behind(mid, gap, "\"" + v), |mid| + 1 + |gap|;
    FieldFound(pre, key, t);
    ValueStart(mid, gap, "\"" + v);
    assert t[o] == t[o..][0];
    assert forall j :: o + 1 <= j < |t| ==> t[j] == t[o..][j - o] == v[j - o - 1];
    FindNoChar(t, '"', o + 1);
    AfterKeyUnclosed(t, 0, key, |mid|, o);
  }

  /** Anything but a quote or an opening bracket is passed over: the scan goes on right behind the field name. */
  lemma FieldOfOther(pre: string, key: string, mid: string, gap: string, x: string)
    requires Shape(pre, key, mid, gap, x)
    requires x == "" || (x[0] != ' ' && x[0] != '\t' && x[0] != '\n' && x[0] != '"' && x[0] != '[')
    ensures ScanFields(pre + Quoted(key, Behind(mid, gap, x)), 0, key) == ScanFields(Behind(mid, gap, x), 0, key)
  {
    hide Find;
    hide SkipBlanks;
    hide Behind;
    hide FirstPlace;
    hide ScanFields;
    hide AfterKey;
    var t, o := Behind(mid, gap, x), |mid| + 1 + |gap|;
    FieldFound(pre, key, t);
    ValueStart(mid, gap, x);
    assert x != "" ==> t[o] == t[o..][0];
    AfterKeyOther(t, 0, key, |mid|, o);
  }

  /** Without a colon behind the field name the scan ends. */
  lemma FieldWithoutColon(pre: string, key: string, mid: string)
    requires FirstPlace(pre, key, mid) && ColonFree(mid)
    ensures ScanFields(pre + Quoted(key, mid), 0, key) == []
  {
    hide FirstPlace;
    hide ScanFields;
    FieldFound(pre, key, mid);
    NoColon(mid, key);
  }

  lemma NoColon(t: string, key: string)
    requires ColonFree(t)
    ensures AfterKey(t, 0, key) == []
  {
    FindNoChar(t, ':', 0);
  }

  /** Of an array every member is read, and the scan goes on right behind the field name. */
  lemma FieldOfArray(pre: string, key: string, mid: string, gap: string, x: string)
    returns (values: seq<string>, opens: seq<nat>, closes: seq<nat>)
    requires Shape(pre, key, mid, gap, "[" + x)
    ensures ScanFields(pre + Quoted(key, Behind(mid, gap, "[" + x)), 0, key)
         == values + ScanFields(Behind(mid, gap, "[" + x), 0, key)
    ensures ReadsArray("[" + x, 0, 0, values, opens, closes)
  {
    hide Find;
    hide Behind;
    hide FirstPlace;
    hide Members;
    hide ScanFields;
    hide AfterKey;
    FieldFound(pre, key, Behind(mid, gap, "[" + x));
    ArrayBehind(mid, gap, x, key);
    values := Members("[" + x, 0, Find("[" + x, "]", 0));
    opens, closes := MembersRead("[" + x, 0, 0);
  }

  lemma ArrayBehind(mid: string, gap: string, x: string, key: string)
    requires ColonFree(mid) && Gap(gap)
    ensures AfterKey(Behind(mid, gap, "[" + x), 0, key)
         == Members("[" + x, 0, Find("[" + x, "]", 0)) + ScanFields(Behind(mid, gap, "[" + x), 0, key)
  {
    hide Find;
    hide SkipBlanks;
    hide Behind;
    hide Members;
    hide ScanFields;
    hide AfterKey;
    var t, o := Behind(mid, gap, "[" + x), |mid| + 1 + |gap|;
    ValueStart(mid, gap, "[" + x);
    assert t[o] == t[o..][0];
    AfterKeyArray(t, 0, key, |mid|, o);
    FindDrop(t, o, "]", 0);
    MembersDrop(t, o, 0, Find(t[o..], "]", 0));
  }

  /** A text either lacks the quoted key or has a first place of it. */
  lemma TextShape(s: string, key: string) returns (found: bool, pre: string, rest: string)
    ensures found ==> s == pre + Quoted(key, rest) && FirstPlace(pre, key, rest)
    ensures !found ==> forall j :: 0 <= j < |s| ==> !Stands(s, j, key)
  {
    FindFirst(s, Needle(key), 0);
    forall j: nat ensures OccursAt(s, Needle(key), j) <==> Stands(s, j, key) {
      NeedleAt(s, key, j);
    }
    match Find(s, Needle(key), 0)
    case None => found, pre, rest := false, "", "";
    case Some(j) =>
      found, pre, rest := true, s[..j], s[j + |key| + 2..];
      assert s == pre + Quoted(key, rest);
  }

  /** Text behind a field name either has no colon or goes on with a colon, blanks, and no more blanks. */
  lemma ValueShape(t: string) returns (colon: bool, mid: string, gap: string, x: string)
    ensures !colon ==> ColonFree(t)
    ensures colon ==> t == Behind(mid, gap, x) && ColonFree(mid) && Gap(gap)
    ensures colon ==> x == "" || (x[0] != ' ' && x[0] != '\t' && x[0] != '\n')
  {
    hide Find;
    hide SkipBlanks;
    hide Behind;
    colon, mid, gap, x := Find(t, ":", 0).Some?, "", "", "";
    FoundChar(t, ':', 0);
    if colon {
      var i := Find(t, ":", 0).value;
      var o := SkipBlanks(t, i + 1);
      BlanksBetween(t, i + 1);
      mid, gap, x := t[..i], t[i + 1..o], t[o..];
      CutAt(t, i, o);
    }
  }

  lemma CutAt(t: string, i: nat, o: nat)
    requires i < o <= |t| && t[i] == ':'
    ensures t == Behind(t[..i], t[i + 1..o], t[o..])
  {
  }

  // ---- The members of an array ----

  ghost predicate Without(s: string, c: char, a: nat, b: nat) {
    forall j :: a <= j < b && j < |s| ==> s[j] != c
  }

  /** Where member `i` may begin: behind the one before it. */
  ghost function MemberFrom(q: nat, closes: seq<nat>, i: nat): nat
    requires i <= |closes|
  {
    if i == 0 then q else closes[i - 1] + 1
  }

  /** A member: between the first quote from `q` on and the next one, begun before the array is closed. */
  ghost predicate Member(s: string, from: nat, q: nat, value: string, open: nat, close: nat) {
    && q <= open < close < |s|
    && Without(s, '"', q, open) && Without(s, ']', from, open)
    && s[open] == '"' && s[close] == '"' && Without(s, '"', open + 1, close)
    && value == s[open + 1..close]
  }

  /** No quoted text begins from `q` on before the array that begins at `from` is closed. */
  ghost predicate NoMore(s: string, from: nat, q: nat) {
    forall a, b :: q <= a < b < |s| && s[a] == '"' && s[b] == '"' ==> !Without(s, ']', from, a)
  }

  /** The values read from `q` on of an array that begins at `from`, one behind the other, and all of them. */
  ghost predicate ReadsArray(s: string, from: nat, q: nat, values: seq<string>, opens: seq<nat>, closes: seq<nat>) {
    && |opens| == |closes| == |values|
    && (forall i :: 0 <= i < |values| ==> Member(s, from, MemberFrom(q, closes, i), values[i], opens[i], closes[i]))
    && NoMore(s, from, MemberFrom(q, closes, |closes|))
  }

  lemma {:induction false} MembersRead(s: string, from: nat, q: nat) returns (opens: seq<nat>, closes: seq<nat>)
    requires from <= q
    ensures ReadsArray(s, from, q, Members(s, q, Find(s, "]", from)), opens, closes)
    decreases |s| - q
  {
    hide Find;
    hide MemberFrom;
    var end := Find(s, "]", from);
    opens, closes := [], [];
    FoundChar(s, ']', from);
    FoundChar(s, '"', q);
    if Find(s, "\"", q).Some? {
      var open := Find(s, "\"", q).value;
      FoundChar(s, '"', open + 1);
      if (end.None? || open < end.value) && Find(s, "\"", open + 1).Some? {
        var close := Find(s, "\"", open + 1).value;
        var os, cs := MembersRead(s, from, close + 1);
        opens, closes := [open] + os, [close] + cs;
        MembersFirst(s, from, q, open, close, Members(s, close + 1, end), os, cs);
        return;
      }
    }
    assert MemberFrom(q, [], 0) == q by {
      FromStart(q);
    }
    assert Members(s, q, end) == [];
  }

  lemma FromStart(q: nat)
    ensures MemberFrom(q, [], 0) == q
  {
  }

  lemma MembersFirst(s: string, from: nat, q: nat, open: nat, close: nat, values: seq<string>, os: seq<nat>, cs: seq<nat>)
    requires ReadsArray(s, from, close + 1, values, os, cs)
    requires open < close < |s| && Member(s, from, q, s[open + 1..close], open, close)
    ensures ReadsArray(s, from, q, [s[open + 1..close]] + values, [open] + os, [close] + cs)
  {
    hide Member;
    hide NoMore;
    var vs, opens, closes := [s[open + 1..close]] + values, [open] + os, [close] + cs;
    assert forall i :: 0 < i <= |cs| + 1 ==> MemberFrom(q, closes, i) == MemberFrom(close + 1, cs, i - 1);
    forall i | 0 <= i < |vs| ensures Member(s, from, MemberFrom(q, closes, i), vs[i], opens[i], closes[i]) {
      assert i > 0 ==> vs[i] == values[i - 1] && opens[i] == os[i - 1] && closes[i] == cs[i - 1];
    }
  }

  /** One member is read, and reading goes on behind it. */
  lemma MemberStep(pre: string, x: string, tail: string, end: nat)
    requires QuoteFree(pre) && QuoteFree(x)
    ensures var n := |pre| + |x| + 2;
            Members(pre + Quoted(x, tail), 0, Some(n + end)) == [x] + Members(tail, 0, Some(end))
  {
    hide Find;
    hide Quoted;
    hide Members;
    var s := pre + Quoted(x, tail);
    QuotedParts(pre, x, tail);
    var open, close := |pre|, |pre| + 1 + |x|;
    assert forall j :: 0 <= j < open ==> s[j] == s[..open][j];
    FindChar(s, '"', 0, open);
    assert forall j :: open + 1 <= j < close ==> s[j] == s[open + 1..close][j - open - 1];
    FindChar(s, '"', open + 1, close);
    MembersOpen(s, 0, close + 1 + end, open, close);
    MembersDrop(s, close + 1, 0, Some(end));
  }

  lemma MembersOpen(s: string, q: nat, end: nat, open: nat, close: nat)
    requires Find(s, "\"", q) == Some(open) && open <= end && Find(s, "\"", open + 1) == Some(close)
    ensures Members(s, q, Some(end)) == [s[open + 1..close]] + Members(s, close + 1, Some(end))
  {
    hide Find;
  }

  lemma NoMember(pre: string, rest: string)
    requires QuoteFree(pre)
    ensures Members(pre + ("]" + rest), 0, Some(|pre|)) == []
  {
    var s := pre + ("]" + rest);
    assert forall j :: 0 <= j < |pre| ==> s[j] == pre[j];
    FoundChar(s, '"', 0);
  }

}
