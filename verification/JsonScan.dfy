/**
 The string scanner of the Clear Key backend. It looks for `"key"`, a colon, and then one quoted
 string or an array of them; it is not a JSON parser.
 */
module JsonScan {
  import opened Basics
  import opened StdString

  function Needle(key: string): string {
    "\"" + key + "\""
  }

  predicate Blank(c: char) {
    c == ' ' || c == '\t' || c == '\n'
  }

  /** The first position from `i` on that is not blank. */
  function SkipBlanks(s: string, i: nat): (r: nat)
    requires i <= |s|
    ensures i <= r <= |s|
    decreases |s| - i
  {
    if i < |s| && Blank(s[i]) then SkipBlanks(s, i + 1) else i
  }

  /** Quoted strings from `q` on, in order, up to the first that opens beyond the bracket at `end`. */
  function Members(s: string, q: nat, end: Option<nat>): (values: seq<string>)
    decreases |s| - q
  {
    match Find(s, "\"", q)
    case None => []
    case Some(open) =>
      if end.Some? && open > end.value then []
      else
        match Find(s, "\"", open + 1)
        case None => []
        case Some(close) => [s[open + 1..close]] + Members(s, close + 1, end)
  }

  /** Every value of field `key` from `pos` on. */
  function ScanFields(s: string, pos: nat, key: string): (values: seq<string>)
    decreases |s| - pos, 0
  {
    match Find(s, Needle(key), pos)
    case None => []
    case Some(p) => AfterKey(s, p + |Needle(key)|, key)
  }

  /** The same, `pos` being right behind an occurrence of the quoted key. */
  function AfterKey(s: string, pos: nat, key: string): (values: seq<string>)
    decreases |s| - pos, 1
  {
    match Find(s, ":", pos)
    case None => []
    case Some(colon) =>
      var cursor := SkipBlanks(s, colon + 1);
      if cursor < |s| && s[cursor] == '[' then
        Members(s, cursor, Find(s, "]", cursor)) + ScanFields(s, pos, key)
      else if cursor < |s| && s[cursor] == '"' then
        match Find(s, "\"", cursor + 1)
        case None => []
        case Some(close) => [s[cursor + 1..close]] + ScanFields(s, close + 1, key)
      else ScanFields(s, pos, key)
  }

  /** The scanner's inner loop: every quoted string from `cursor` until the closing bracket. */
  method ArrayMembers(json: string, cursor: nat) returns (values: seq<string>)
    requires cursor <= |json|
    ensures values == Members(json, cursor, Find(json, "]", cursor))
  {
    hide Find;
    values := [];
    var end := Find(json, "]", cursor);
    var q := cursor;
    while true
      invariant cursor <= q <= |json|
      invariant values + Members(json, q, end) == Members(json, cursor, end)
      decreases |json| - q
    {
      var open := Find(json, "\"", q);
      if open.None? || (end.Some? && open.value > end.value) {
        return;
      }
      var close := Find(json, "\"", open.value + 1);
      if close.None? {
        return;
      }
      values := values + [json[open.value + 1..close.value]];
      q := close.value + 1;
    }
  }

  method JsonStringValues(json: string, key: string) returns (values: seq<string>)
    ensures values == ScanFields(json, 0, key)
  {
    hide Find;
    hide Members;
    values := [];
    var needle := Needle(key);
    var pos := 0;
    while true
      invariant 0 <= pos <= |json|
      invariant values + ScanFields(json, pos, key) == ScanFields(json, 0, key)
      decreases |json| - pos
    {
      var found := Find(json, needle, pos);
      if found.None? {
        return;
      }
      pos := found.value + |needle|;
      var colon := Find(json, ":", pos);
      if colon.None? {
        return;
      }
      var cursor := colon.value + 1;
      while cursor < |json| && Blank(json[cursor])
        invariant colon.value < cursor <= |json|
        invariant SkipBlanks(json, cursor) == SkipBlanks(json, colon.value + 1)
      {
        cursor := cursor + 1;
      }
      if cursor < |json| && json[cursor] == '[' {
        var members := ArrayMembers(json, cursor);
        values := values + members;
      } else if cursor < |json| && json[cursor] == '"' {
        var close := Find(json, "\"", cursor + 1);
        if close.None? {
          return;
        }
        values := values + [json[cursor + 1..close.value]];
        pos := close.value + 1;
      }
    }
  }

  // ---- One case of the scanner at a time ----

  lemma ScanHit(s: string, pos: nat, key: string, p: nat)
    requires Find(s, Needle(key), pos) == Some(p)
    ensures ScanFields(s, pos, key) == AfterKey(s, p + |Needle(key)|, key)
  {
    hide Find;
    hide AfterKey;
  }

  lemma ScanFrom(s: string, a: nat, b: nat, key: string)
    requires Find(s, Needle(key), a) == Find(s, Needle(key), b)
    ensures ScanFields(s, a, key) == ScanFields(s, b, key)
  {
    hide Find;
    hide AfterKey;
  }

  lemma AfterKeyString(s: string, pos: nat, key: string, colon: nat, open: nat, close: nat)
    requires Find(s, ":", pos) == Some(colon) && SkipBlanks(s, colon + 1) == open && open < |s| && s[open] == '"'
    requires Find(s, "\"", open + 1) == Some(close)
    ensures AfterKey(s, pos, key) == [s[open + 1..close]] + ScanFields(s, close + 1, key)
  {
    hide Find;
    hide SkipBlanks;
  }

  lemma AfterKeyUnclosed(s: string, pos: nat, key: string, colon: nat, open: nat)
    requires Find(s, ":", pos) == Some(colon) && SkipBlanks(s, colon + 1) == open && open < |s| && s[open] == '"'
    requires Find(s, "\"", open + 1) == None
    ensures AfterKey(s, pos, key) == []
  {
    hide Find;
    hide SkipBlanks;
  }

  lemma AfterKeyArray(s: string, pos: nat, key: string, colon: nat, open: nat)
    requires Find(s, ":", pos) == Some(colon) && SkipBlanks(s, colon + 1) == open && open < |s| && s[open] == '['
    ensures AfterKey(s, pos, key) == Members(s, open, Find(s, "]", open)) + ScanFields(s, pos, key)
  {
    hide Find;
    hide SkipBlanks;
    hide Members;
  }

  lemma AfterKeyOther(s: string, pos: nat, key: string, colon: nat, open: nat)
    requires Find(s, ":", pos) == Some(colon) && SkipBlanks(s, colon + 1) == open
    requires open < |s| ==> s[open] != '"' && s[open] != '['
    ensures AfterKey(s, pos, key) == ScanFields(s, pos, key)
  {
    hide Find;
    hide SkipBlanks;
  }

  /** Blanks from `i` up to `n`, and no further. */
  lemma {:induction false} BlanksSkipped(s: string, i: nat, n: nat)
    requires i <= n <= |s| && (n < |s| ==> !Blank(s[n])) && forall j :: i <= j < n ==> Blank(s[j])
    ensures SkipBlanks(s, i) == n
    decreases n - i
  {
    if i < n {
      BlanksSkipped(s, i + 1, n);
    }
  }

  lemma {:induction false} BlanksBetween(s: string, i: nat)
    requires i <= |s|
    ensures forall j :: i <= j < SkipBlanks(s, i) ==> Blank(s[j])
    ensures SkipBlanks(s, i) < |s| ==> !Blank(s[SkipBlanks(s, i)])
    decreases |s| - i
  {
    if i < |s| && Blank(s[i]) {
      BlanksBetween(s, i + 1);
    }
  }

  // ---- Soundness on arbitrary text ----

  /** `v` is quote-free and stands between the quotes at `o` and `o + 1 + |v|`. */
  ghost predicate EnclosedAt(s: string, v: string, o: nat) {
    o + |v| + 1 < |s| && '"' !in v && s[o] == '"' && s[o + 1..o + 1 + |v|] == v && s[o + 1 + |v|] == '"'
  }

  /** An occurrence of the quoted key at `k`, behind it a colon at `c`, behind that `v` enclosed at `o`. */
  ghost predicate FoundAt(s: string, key: string, v: string, k: nat, c: nat, o: nat) {
    OccursAt(s, Needle(key), k) && k + |Needle(key)| <= c < o < |s| && s[c] == ':' && EnclosedAt(s, v, o)
  }

  lemma EnclosedHere(s: string, o: nat)
    requires o < |s| && s[o] == '"' && Find(s, "\"", o + 1).Some?
    ensures EnclosedAt(s, s[o + 1..Find(s, "\"", o + 1).value], o)
  {
    FoundChar(s, '"', o + 1);
  }

  lemma {:induction false} MembersSound(s: string, q: nat, end: Option<nat>, i: nat) returns (o: nat)
    requires i < |Members(s, q, end)|
    ensures q <= o && EnclosedAt(s, Members(s, q, end)[i], o)
    decreases |s| - q
  {
    hide Find;
    FoundChar(s, '"', q);
    o := Find(s, "\"", q).value;
    if i == 0 {
      EnclosedHere(s, o);
    } else {
      o := MembersSound(s, Find(s, "\"", o + 1).value + 1, end, i - 1);
    }
  }

  /** Scanner soundness: whatever the text, every value is quoted text behind the key and a colon. */
  lemma {:induction false} ScanSound(s: string, pos: nat, key: string, i: nat) returns (k: nat, c: nat, o: nat)
    requires i < |ScanFields(s, pos, key)|
    ensures pos <= k && FoundAt(s, key, ScanFields(s, pos, key)[i], k, c, o)
    decreases |s| - pos, 0
  {
    hide Find;
    hide OccursAt;
    hide FoundAt;
    hide AfterKey;
    FindFirst(s, Needle(key), pos);
    k, c, o := AfterKeySound(s, Find(s, Needle(key), pos).value, key, i);
  }

  lemma {:induction false} AfterKeySound(s: string, at: nat, key: string, i: nat) returns (k: nat, c: nat, o: nat)
    requires OccursAt(s, Needle(key), at) && i < |AfterKey(s, at + |Needle(key)|, key)|
    ensures at <= k && FoundAt(s, key, AfterKey(s, at + |Needle(key)|, key)[i], k, c, o)
    decreases |s| - at - |Needle(key)|, 1
  {
    hide Find;
    hide ScanFields;
    hide Members;
    var pos := at + |Needle(key)|;
    FoundChar(s, ':', pos);
    k, c := at, Find(s, ":", pos).value;
    var cursor := SkipBlanks(s, c + 1);
    if cursor < |s| && s[cursor] == '[' {
      var end := Find(s, "]", cursor);
      var members := Members(s, cursor, end);
      assert AfterKey(s, pos, key) == members + ScanFields(s, pos, key);
      if i < |members| {
        o := MembersSound(s, cursor, end, i);
      } else {
        k, c, o := ScanSound(s, pos, key, i - |members|);
      }
    } else if cursor < |s| && s[cursor] == '"' {
      var close := Find(s, "\"", cursor + 1).value;
      assert AfterKey(s, pos, key) == [s[cursor + 1..close]] + ScanFields(s, close + 1, key);
      if i == 0 {
        o := cursor;
        EnclosedHere(s, o);
      } else {
        k, c, o := ScanSound(s, close + 1, key, i - 1);
      }
    } else {
      k, c, o := ScanSound(s, pos, key, i);
    }
  }

  // ---- The scanner only looks forwards ----

  lemma {:induction false} SkipBlanksDrop(s: string, n: nat, i: nat)
    requires n + i <= |s|
    ensures SkipBlanks(s, n + i) == n + SkipBlanks(s[n..], i)
    decreases |s| - i
  {
    if n + i < |s| && Blank(s[n + i]) {
      SkipBlanksDrop(s, n, i + 1);
    }
  }

  function Shift(end: Option<nat>, n: nat): Option<nat> {
    match end
    case None => None
    case Some(e) => Some(n + e)
  }

  lemma {:induction false} MembersDrop(s: string, n: nat, q: nat, end: Option<nat>)
    requires n <= |s|
    ensures Members(s, n + q, Shift(end, n)) == Members(s[n..], q, end)
    decreases |s| - q
  {
    hide Find;
    FindDrop(s, n, "\"", q);
    match Find(s[n..], "\"", q)
    case None =>
    case Some(open) =>
      FindDrop(s, n, "\"", open + 1);
      match Find(s[n..], "\"", open + 1)
      case None =>
      case Some(close) =>
        assert s[n..][open + 1..close] == s[n + open + 1..n + close];
        MembersDrop(s, n, close + 1, end);
  }

  lemma {:induction false} ScanDrop(s: string, n: nat, pos: nat, key: string)
    requires n <= |s|
    ensures ScanFields(s, n + pos, key) == ScanFields(s[n..], pos, key)
    decreases |s| - pos, 0
  {
    hide Find;
    FindDrop(s, n, Needle(key), pos);
    match Find(s[n..], Needle(key), pos)
    case None =>
    case Some(p) => AfterKeyDrop(s, n, p + |Needle(key)|, key);
  }

  lemma {:induction false} AfterKeyDrop(s: string, n: nat, pos: nat, key: string)
    requires n <= |s|
    ensures AfterKey(s, n + pos, key) == AfterKey(s[n..], pos, key)
    decreases |s| - pos, 1
  {
    hide Find;
    hide ScanFields;
    hide Members;
    hide SkipBlanks;
    FindDrop(s, n, ":", pos);
    match Find(s[n..], ":", pos)
    case None =>
    case Some(colon) =>
      SkipBlanksDrop(s, n, colon + 1);
      var cursor := SkipBlanks(s[n..], colon + 1);
      ScanDrop(s, n, pos, key);
      if cursor < |s[n..]| && s[n..][cursor] == '[' {
        FindDrop(s, n, "]", cursor);
        MembersDrop(s, n, cursor, Find(s[n..], "]", cursor));
      } else if cursor < |s[n..]| && s[n..][cursor] == '"' {
        FindDrop(s, n, "\"", cursor + 1);
        match Find(s[n..], "\"", cursor + 1)
        case None =>
        case Some(close) =>
          assert s[n..][cursor + 1..close] == s[n + cursor + 1..n + close];
          ScanDrop(s, n, close + 1, key);
      }
  }
}
