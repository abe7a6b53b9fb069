/** The part of `std::string` the scanner uses: searching forwards. */
module StdString {
  import opened Basics

  ghost predicate OccursAt(s: string, pat: string, i: nat) {
    i + |pat| <= |s| && s[i..i + |pat|] == pat
  }

  /** `s.find(pat, from)`, with `None` for `npos`. */
  function Find(s: string, pat: string, from: nat): (r: Option<nat>)
    ensures r.Some? ==> from <= r.value && r.value + |pat| <= |s|
    decreases |s| - from
  {
    if from + |pat| > |s| then None
    else if s[from..from + |pat|] == pat then Some(from)
    else if from == |s| then None
    else Find(s, pat, from + 1)
  }

  /** `Find` is the first occurrence from `from` on. */
  lemma {:induction false} FindFirst(s: string, pat: string, from: nat)
    ensures match Find(s, pat, from)
            case None => forall j: nat :: from <= j ==> !OccursAt(s, pat, j)
            case Some(i) => OccursAt(s, pat, i) && forall j :: from <= j < i ==> !OccursAt(s, pat, j)
    decreases |s| - from
  {
    if from < |s| {
      FindFirst(s, pat, from + 1);
    }
  }

  lemma FindIs(s: string, pat: string, from: nat, i: nat)
    requires from <= i && OccursAt(s, pat, i) && forall j :: from <= j < i ==> !OccursAt(s, pat, j)
    ensures Find(s, pat, from) == Some(i)
  {
    FindFirst(s, pat, from);
  }

  /** Searching only looks forwards: the text before `from` does not matter. */
  lemma {:induction false} FindDrop(s: string, n: nat, pat: string, from: nat)
    requires n <= |s|
    ensures Find(s, pat, n + from) == (match Find(s[n..], pat, from) case None => None case Some(k) => Some(n + k))
    decreases |s| - from
  {
    if n + from + |pat| <= |s| {
      assert s[n..][from..from + |pat|] == s[n + from..n + from + |pat|];
      if n + from < |s| {
        FindDrop(s, n, pat, from + 1);
      }
    }
  }

  /** Skipping positions where the pattern does not occur. */
  lemma FindSkip(s: string, pat: string, from: nat, to: nat)
    requires from <= to && forall j :: from <= j < to ==> !OccursAt(s, pat, j)
    ensures Find(s, pat, from) == Find(s, pat, to)
  {
    FindFirst(s, pat, from);
    FindFirst(s, pat, to);
  }

  /** A single character occurs where it stands. */
  lemma CharOccurs(s: string, c: char, i: nat)
    ensures OccursAt(s, [c], i) <==> i < |s| && s[i] == c
  {
    if i < |s| {
      assert s[i..i + 1] == [s[i]];
    }
  }

  /** `s.find(c, from)` when the next `n` characters are not `c` and the one behind them is. */
  lemma FindChar(s: string, c: char, from: nat, i: nat)
    requires from <= i < |s| && s[i] == c && forall j :: from <= j < i ==> s[j] != c
    ensures Find(s, [c], from) == Some(i)
  {
    forall j: nat ensures OccursAt(s, [c], j) <==> j < |s| && s[j] == c { CharOccurs(s, c, j); }
    FindIs(s, [c], from, i);
  }

  lemma FindNoChar(s: string, c: char, from: nat)
    requires forall j :: from <= j < |s| ==> s[j] != c
    ensures Find(s, [c], from) == None
  {
    FindFirst(s, [c], from);
    forall j: nat ensures OccursAt(s, [c], j) <==> j < |s| && s[j] == c { CharOccurs(s, c, j); }
  }

  /** What `s.find(c, from)` says about the characters. */
  lemma FoundChar(s: string, c: char, from: nat)
    ensures match Find(s, [c], from)
            case None => forall j :: from <= j < |s| ==> s[j] != c
            case Some(i) => s[i] == c && forall j :: from <= j < i ==> s[j] != c
  {
    FindFirst(s, [c], from);
    forall j: nat ensures OccursAt(s, [c], j) <==> j < |s| && s[j] == c { CharOccurs(s, c, j); }
  }
}
