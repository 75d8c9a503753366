/** Searching and slicing strings as std::string does. */
module Text {
  import opened Wrappers

  /** `pat` stands in `s` at position `i`. */
  predicate OccursAt(s: string, pat: string, i: int) {
    0 <= i && i + |pat| <= |s| && s[i..i + |pat|] == pat
  }

  /** find: the first occurrence at or after `from`. */
  function Find(s: string, pat: string, from: nat): (r: Option<nat>)
    ensures r.Some? ==> from <= r.value && OccursAt(s, pat, r.value)
    ensures r.Some? ==> forall j :: from <= j < r.value ==> !OccursAt(s, pat, j)
    ensures r.None? ==> forall j :: from <= j ==> !OccursAt(s, pat, j)
    decreases |s| - from
  {
    if from + |pat| > |s| then None
    else if OccursAt(s, pat, from) then Some(from)
    else Find(s, pat, from + 1)
  }

  predicate Contains(s: string, pat: string) {
    Find(s, pat, 0).Some?
  }

  predicate StartsWith(s: string, pat: string) {
    OccursAt(s, pat, 0)
  }

  /** find of one character. */
  function FindChar(s: string, c: char, from: nat): (r: Option<nat>)
    ensures r.Some? ==> from <= r.value < |s| && s[r.value] == c
    ensures r.Some? ==> forall j :: from <= j < r.value ==> s[j] != c
    ensures r.None? ==> forall j :: from <= j < |s| ==> s[j] != c
    decreases |s| - from
  {
    if from >= |s| then None
    else if s[from] == c then Some(from)
    else FindChar(s, c, from + 1)
  }

  /** The first position is what find returns. */
  lemma FindIs(s: string, pat: string, from: nat, i: nat)
    requires from <= i && OccursAt(s, pat, i)
    requires forall j :: from <= j < i ==> !OccursAt(s, pat, j)
    ensures Find(s, pat, from) == Some(i)
  {
  }

  lemma FindNone(s: string, pat: string, from: nat)
    requires forall j :: from <= j ==> !OccursAt(s, pat, j)
    ensures Find(s, pat, from) == None
  {
  }

  lemma FindCharIs(s: string, c: char, from: nat, i: nat)
    requires from <= i < |s| && s[i] == c
    requires forall j :: from <= j < i ==> s[j] != c
    ensures FindChar(s, c, from) == Some(i)
  {
  }

  lemma FindCharNone(s: string, c: char, from: nat)
    requires forall j :: from <= j < |s| ==> s[j] != c
    ensures FindChar(s, c, from) == None
  {
  }

  /** Searching from a position is searching what is left. */
  lemma ShiftChar(s: string, c: char, pos: nat, from: nat)
    requires pos + from <= |s|
    ensures FindChar(s[pos..], c, from) == match FindChar(s, c, pos + from) case None => None case Some(i) => Some(i - pos)
  {
    match FindChar(s, c, pos + from)
    case None => FindCharNone(s[pos..], c, from);
    case Some(i) => FindCharIs(s[pos..], c, from, i - pos);
  }

  /** The blanks a text begins with. */
  function LeadingBlanks(s: string): (n: nat)
    ensures n <= |s|
  {
    if s != "" && s[0] == ' ' then 1 + LeadingBlanks(s[1..]) else 0
  }

  /** What follows the first occurrence. */
  function After(s: string, pat: string): Option<string> {
    match Find(s, pat, 0)
    case None => None
    case Some(i) => Some(s[i + |pat|..])
  }

  lemma OccursChar(s: string, pat: string, j: int, k: nat)
    requires OccursAt(s, pat, j) && k < |pat|
    ensures j + k < |s| && s[j + k] == pat[k]
  {
    assert s[j..j + |pat|][k] == s[j + k];
  }

  /** One wrong character is enough. */
  lemma NotAt(s: string, pat: string, j: nat, k: nat)
    requires k < |pat| && j + k < |s| && s[j + k] != pat[k]
    ensures !OccursAt(s, pat, j)
  {
    if OccursAt(s, pat, j) {
      OccursChar(s, pat, j, k);
    }
  }

  /** An occurrence that fits in a prefix is an occurrence in the whole, and back. */
  lemma OccursInPrefix(s: string, n: nat, pat: string, i: int)
    requires n <= |s|
    ensures OccursAt(s[..n], pat, i) <==> OccursAt(s, pat, i) && i + |pat| <= n
  {
    if 0 <= i && i + |pat| <= n {
      assert s[..n][i..i + |pat|] == s[i..i + |pat|];
    }
  }
}
