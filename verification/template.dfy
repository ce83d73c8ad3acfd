/**
 * The back-link sentence: Python's `str.find`, the slicing that cuts the
 * translated sentence around its `<<` and `>>` markers, and the untranslated
 * sentence with its `%s` and `%d` filled in.
 */
module Template {

  /** `pat` occurs in `s` at position `i`. */
  predicate OccursAt(s: string, pat: string, i: nat)
  {
    i + |pat| <= |s| && s[i..i + |pat|] == pat
  }

  /** `s.find(pat, k)`: the first occurrence at or after `k`, or -1. */
  function FindFrom(s: string, pat: string, k: nat): (position: int)
    requires k <= |s|
    ensures position == -1 || (k <= position && OccursAt(s, pat, position))
    decreases |s| - k
  {
    if OccursAt(s, pat, k) then k
    else if k + |pat| >= |s| then -1
    else FindFrom(s, pat, k + 1)
  }

  /** `s.find(pat)`. */
  function Find(s: string, pat: string): (position: int)
    ensures position == -1 || (0 <= position && OccursAt(s, pat, position))
  {
    FindFrom(s, pat, 0)
  }

  /** `find` returns the first occurrence at or after `k`, or -1 when there is none. */
  lemma {:induction false} FindFromSpec(s: string, pat: string, k: nat)
    requires k <= |s|
    ensures var r := FindFrom(s, pat, k);
      && (r == -1 || (k <= r && OccursAt(s, pat, r)))
      && (r == -1 ==> forall i :: k <= i <= |s| ==> !OccursAt(s, pat, i))
      && (r != -1 ==> forall i :: k <= i < r ==> !OccursAt(s, pat, i))
    decreases |s| - k
  {
    if !OccursAt(s, pat, k) && k + |pat| < |s| {
      FindFromSpec(s, pat, k + 1);
    }
  }

  lemma FindSpec(s: string, pat: string)
    ensures var r := Find(s, pat);
      && (r == -1 || (0 <= r && OccursAt(s, pat, r)))
      && (r == -1 ==> forall i :: 0 <= i <= |s| ==> !OccursAt(s, pat, i))
      && (r != -1 ==> forall i :: 0 <= i < r ==> !OccursAt(s, pat, i))
  {
    FindFromSpec(s, pat, 0);
  }

  /** `s[:k]`, negative `k` counting from the end, out-of-range `k` clipped. */
  function SliceTo(s: string, k: int): (prefix: string)
    ensures |prefix| <= |s| && prefix == s[..|prefix|]
    ensures 0 <= k <= |s| ==> prefix == s[..k]
    ensures -|s| <= k < 0 ==> prefix == s[..|s| + k]
    ensures k > |s| ==> prefix == s
    ensures k < -|s| ==> prefix == []
  {
    if k >= 0 then s[..if k <= |s| then k else |s|]
    else s[..if |s| + k >= 0 then |s| + k else 0]
  }

  /** `s[k:]`, negative `k` counting from the end, out-of-range `k` clipped. */
  function SliceFrom(s: string, k: int): (suffix: string)
    ensures |suffix| <= |s| && suffix == s[|s| - |suffix|..]
    ensures 0 <= k <= |s| ==> suffix == s[k..]
    ensures -|s| <= k < 0 ==> suffix == s[|s| + k..]
    ensures k > |s| ==> suffix == []
    ensures k < -|s| ==> suffix == s
  {
    if k >= 0 then s[if k <= |s| then k else |s|..]
    else s[if |s| + k >= 0 then |s| + k else 0..]
  }

  /** `desc1`: the sentence up to its first `<<`. */
  function Before(description: string): (desc1: string)
    ensures |desc1| <= |description| && desc1 == description[..|desc1|]
    ensures Find(description, "<<") != -1 ==> desc1 == description[..Find(description, "<<")]
    ensures Find(description, "<<") == -1 && description != [] ==> desc1 == description[..|description| - 1]
  {
    SliceTo(description, Find(description, "<<"))
  }

  /** `desc2`: the sentence after its first `>>`. */
  function After(description: string): (desc2: string)
    ensures |desc2| <= |description| && desc2 == description[|description| - |desc2|..]
    ensures Find(description, ">>") != -1 ==> desc2 == description[Find(description, ">>") + 2..]
    ensures Find(description, ">>") == -1 ==> desc2 == if description == [] then [] else description[1..]
  {
    SliceFrom(description, Find(description, ">>") + 2)
  }

  /**
   * When the first `<<` is at `i` and the first `>>` at `j`, after it, `desc1`
   * is everything before `i`, `desc2` everything after the `>>`, and the
   * sentence is exactly `desc1 + "<<" + link text + ">>" + desc2`.
   */
  lemma SplitRoundTrip(description: string, i: nat, j: nat)
    requires i + 2 <= j
    requires OccursAt(description, "<<", i) && forall k :: 0 <= k < i ==> !OccursAt(description, "<<", k)
    requires OccursAt(description, ">>", j) && forall k :: 0 <= k < j ==> !OccursAt(description, ">>", k)
    ensures Before(description) == description[..i]
    ensures After(description) == description[j + 2..]
    ensures description == Before(description) + "<<" + description[i + 2..j] + ">>" + After(description)
  {
    FindSpec(description, "<<");
    FindSpec(description, ">>");
    assert description == description[..i] + description[i..i + 2] + description[i + 2..j]
                          + description[j..j + 2] + description[j + 2..];
  }

  /** A sentence without `<<` loses its last character in `desc1` (slicing at -1). */
  lemma MissingOpenMarker(description: string)
    requires |description| > 0
    requires forall i :: 0 <= i <= |description| ==> !OccursAt(description, "<<", i)
    ensures Before(description) == description[..|description| - 1]
  {
    FindSpec(description, "<<");
  }

  /** A sentence without `>>` loses its first character in `desc2` (slicing at -1 + 2). */
  lemma MissingCloseMarker(description: string)
    requires forall i :: 0 <= i <= |description| ==> !OccursAt(description, ">>", i)
    ensures After(description) == if description == [] then [] else description[1..]
  {
    FindSpec(description, ">>");
  }

  /** When the first character of `pat` is not in `p` and `rest` starts with `pat`, the first occurrence of `pat` in `p + rest` is at `|p|`. */
  lemma {:induction false} FindAfterClean(p: string, rest: string, pat: string)
    requires |pat| > 0 && pat[0] !in p
    requires OccursAt(rest, pat, 0)
    ensures Find(p + rest, pat) == |p|
  {
    var s := p + rest;
    assert s[|p|..|p| + |pat|] == rest[..|pat|];
    assert OccursAt(s, pat, |p|);
    FindSpec(s, pat);
  }

  /** `%d`: the decimal digits of a line number. */
  function Decimal(n: nat): (r: string)
    ensures |r| > 0
    ensures forall c <- r :: '0' <= c <= '9'
  {
    var digit := ['0', '1', '2', '3', '4', '5', '6', '7', '8', '9'][n % 10];
    if n < 10 then [digit] else Decimal(n / 10) + [digit]
  }

  /** The number a string of decimal digits denotes, most significant digit first. */
  function DigitsValue(s: string): (v: nat)
    requires forall c <- s :: '0' <= c <= '9'
    ensures s == [] ==> v == 0
  {
    if s == [] then 0
    else
      var init, last := s[..|s| - 1], s[|s| - 1];
      assert forall c <- init :: c in s;
      assert last in s;
      DigitsValue(init) * 10 + (last as int - '0' as int)
  }

  /** `%d` writes exactly the digits of the number, with no leading zero except for 0 itself. */
  lemma {:induction false} DecimalValue(n: nat)
    ensures DigitsValue(Decimal(n)) == n
    ensures Decimal(n)[0] == '0' <==> n == 0
  {
    var digit := ['0', '1', '2', '3', '4', '5', '6', '7', '8', '9'][n % 10];
    assert digit as int - '0' as int == n % 10;
    if n >= 10 {
      var high := Decimal(n / 10);
      DecimalValue(n / 10);
      assert (high + [digit])[..|high + [digit]| - 1] == high;
      assert (high + [digit])[0] == high[0];
    }
  }

  const LinkText := "original entry"

  /** The untranslated back-link sentence, formatted with a source path and line. */
  function EnglishSentence(source: string, line: nat): (sentence: string)
  {
    "(The <<" + LinkText + ">> is located in " + source + ", line " + Decimal(line) + ".)"
  }

  /**
   * A sentence `prefix << inner >> tail` whose prefix holds no `<` and whose
   * `prefix << inner` holds no `>` splits into `prefix` and `tail`.
   */
  lemma SplitAtMarkers(prefix: string, inner: string, tail: string)
    requires '<' !in prefix && '>' !in prefix + "<<" + inner
    ensures Before(prefix + "<<" + inner + ">>" + tail) == prefix
    ensures After(prefix + "<<" + inner + ">>" + tail) == tail
  {
    var s := prefix + "<<" + inner + ">>" + tail;
    var head := prefix + "<<" + inner;
    assert s == prefix + ("<<" + inner + ">>" + tail);
    FindAfterClean(prefix, "<<" + inner + ">>" + tail, "<<");
    assert s == head + (">>" + tail);
    FindAfterClean(head, ">>" + tail, ">>");
    assert s[|head| + 2..] == tail;
  }

  /**
   * For the untranslated sentence, whatever the source path holds, the text before
   * the link is `(The ` and the text after it names the source and the line.
   */
  lemma EnglishSplit(source: string, line: nat)
    ensures Before(EnglishSentence(source, line)) == "(The "
    ensures After(EnglishSentence(source, line))
            == " is located in " + source + ", line " + Decimal(line) + ".)"
  {
    var tail := " is located in " + source + ", line " + Decimal(line) + ".)";
    assert EnglishSentence(source, line) == "(The " + "<<" + LinkText + ">>" + tail;
    SplitAtMarkers("(The ", LinkText, tail);
  }
}
