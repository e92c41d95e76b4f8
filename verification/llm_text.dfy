/**
 The clean-up applied to the language model's answer before it is shown
 (utils/llm_helper.py): drop the reasoning that ends at the last closing
 think tag, trim the whitespace around what is left, and delete the
 markdown bold and code-fence markers. Python's str.split, str.strip and
 str.replace are modelled here on `string`.
 */
module LlmText {

  // ---------------------------------------------------------------------
  // Occurrences

  /** pat occurs in s starting at position i. */
  predicate OccursAt(s: string, pat: string, i: int) {
    0 <= i && i + |pat| <= |s| && s[i..i + |pat|] == pat
  }

  /** Python's `pat in s`. */
  predicate Contains(s: string, pat: string) {
    exists i :: 0 <= i <= |s| && OccursAt(s, pat, i)
  }

  /** An occurrence inside the tail s[1..] is an occurrence in s, one place on. */
  lemma OccursInTail(s: string, pat: string, i: int)
    requires |s| > 0 && OccursAt(s[1..], pat, i)
    ensures OccursAt(s, pat, i + 1)
  {
    assert s[1..][i..i + |pat|] == s[i + 1..i + 1 + |pat|];
  }

  // ---------------------------------------------------------------------
  // str.replace(pat, "")

  /**
   s.replace(pat, ""): scan from the left, deleting each occurrence of pat
   and resuming after it; occurrences never overlap.
   */
  function RemoveAll(s: string, pat: string): (r: string)
    requires |pat| > 0
    ensures |r| <= |s|
    decreases |s|
  {
    if |s| < |pat| then s
    else if s[..|pat|] == pat then RemoveAll(s[|pat|..], pat)
    else [s[0]] + RemoveAll(s[1..], pat)
  }

  /** A string without the pattern is left as it is. */
  lemma {:induction false} RemoveAbsent(s: string, pat: string)
    requires |pat| > 0 && !Contains(s, pat)
    ensures RemoveAll(s, pat) == s
    decreases |s|
  {
    if |s| >= |pat| {
      assert !OccursAt(s, pat, 0);
      assert !Contains(s[1..], pat) by {
        forall i | OccursAt(s[1..], pat, i)
          ensures false
        {
          OccursInTail(s, pat, i);
        }
      }
      RemoveAbsent(s[1..], pat);
    }
  }

  /** A run of three equal characters, such as the code fence. */
  predicate Run3(pat: string) {
    |pat| == 3 && pat[1] == pat[0] && pat[2] == pat[0]
  }

  /** A string that does not start with the run's character keeps its first character. */
  lemma RemoveHead(t: string, pat: string)
    requires Run3(pat) && |t| > 0 && t[0] != pat[0]
    ensures |RemoveAll(t, pat)| > 0 && RemoveAll(t, pat)[0] == t[0]
  {
    if |t| >= 3 {
      assert t[..3][0] != pat[0];
    }
  }

  /**
   After deleting a run of three equal characters nothing of the run is
   left: the deletion cannot splice a new run together, because the scan
   always takes the leftmost one.
   */
  lemma {:induction false} RunRemoved(s: string, pat: string)
    requires Run3(pat)
    ensures !Contains(RemoveAll(s, pat), pat)
    decreases |s|
  {
    var r := RemoveAll(s, pat);
    if |s| < 3 {
      assert r == s;
    } else if s[..3] == pat {
      RunRemoved(s[3..], pat);
    } else {
      var tail := RemoveAll(s[1..], pat);
      RunRemoved(s[1..], pat);
      assert r == [s[0]] + tail;
      if s[0] == pat[0] {
        RunHead(s, pat, tail);
      }
      ConsNoRun(s[0], tail, pat);
    }
  }

  /** One character before a run-free string makes a run only if it starts one with the first two characters. */
  lemma ConsNoRun(x: char, tail: string, pat: string)
    requires Run3(pat) && !Contains(tail, pat)
    requires !(x == pat[0] && |tail| >= 2 && tail[0] == pat[0] && tail[1] == pat[0])
    ensures !Contains([x] + tail, pat)
  {
    var r := [x] + tail;
    forall i | 0 <= i <= |r|
      ensures !OccursAt(r, pat, i)
    {
      if i > 0 && i + 3 <= |r| {
        assert r[i..i + 3] == tail[i - 1..i + 2];
        assert !OccursAt(tail, pat, i - 1);
      } else if i == 0 && |r| >= 3 {
        assert r[..3] == [x, tail[0], tail[1]];
      }
    }
  }

  /** Where s does not start with the run, the deletion in its tail does not start with two of the run's character. */
  lemma RunHead(s: string, pat: string, tail: string)
    requires Run3(pat) && |s| >= 3 && s[..3] != pat && s[0] == pat[0]
    requires tail == RemoveAll(s[1..], pat)
    ensures !(|tail| >= 2 && tail[0] == pat[0] && tail[1] == pat[0])
  {
    var c := pat[0];
    if s[1] != c {
      RemoveHead(s[1..], pat);
    } else {
      assert s[2] != c by {
        assert s[..3] == [s[0], s[1], s[2]];
        assert pat == [c, c, c];
      }
      if |s| - 1 >= 3 {
        assert s[1..][..3][1] == s[2];
        RemoveHead(s[2..], pat);
        assert s[1..][1..] == s[2..];
        assert tail == [s[1]] + RemoveAll(s[2..], pat);
      } else {
        assert tail == s[1..];
      }
    }
  }

  // ---------------------------------------------------------------------
  // str.strip()

  /** str.isspace for one character: the ASCII and Unicode whitespace Python strips. */
  predicate IsSpace(c: char) {
    || c == ' ' || '\t' <= c <= '\r' || '\U{1C}' <= c <= '\U{1F}'
    || c == '\U{85}' || c == '\U{A0}' || c == '\U{1680}' || '\U{2000}' <= c <= '\U{200A}'
    || c == '\U{2028}' || c == '\U{2029}' || c == '\U{202F}' || c == '\U{205F}' || c == '\U{3000}'
  }

  /** lstrip(): the longest suffix that does not start with whitespace. */
  function TrimStart(s: string): (r: string)
    ensures |r| <= |s| && r == s[|s| - |r|..]
    ensures forall k :: 0 <= k < |s| - |r| ==> IsSpace(s[k])
    ensures |r| > 0 ==> !IsSpace(r[0])
    decreases |s|
  {
    if |s| > 0 && IsSpace(s[0]) then TrimStart(s[1..]) else s
  }

  /** rstrip(): the longest prefix that does not end with whitespace. */
  function TrimEnd(s: string): (r: string)
    ensures |r| <= |s| && r == s[..|r|]
    ensures forall k :: |r| <= k < |s| ==> IsSpace(s[k])
    ensures |r| > 0 ==> !IsSpace(r[|r| - 1])
    decreases |s|
  {
    if |s| > 0 && IsSpace(s[|s| - 1]) then TrimEnd(s[..|s| - 1]) else s
  }

  /**
   strip(): the text between the leading and the trailing whitespace. The
   result is a slice of s, only whitespace lies outside it, and it neither
   starts nor ends with whitespace.
   */
  function Strip(s: string): (r: string)
    ensures exists i :: OccursAt(s, r, i)
                         && (forall k :: 0 <= k < i ==> IsSpace(s[k]))
                         && (forall k :: i + |r| <= k < |s| ==> IsSpace(s[k]))
    ensures |r| > 0 ==> !IsSpace(r[0]) && !IsSpace(r[|r| - 1])
  {
    var t := TrimStart(s);
    var r := TrimEnd(t);
    StripSlice(s, t, r);
    r
  }

  /** The trimmed text sits in s at the number of leading spaces, with only spaces after it. */
  lemma StripSlice(s: string, t: string, r: string)
    requires |t| <= |s| && t == s[|s| - |t|..]
    requires |r| <= |t| && r == t[..|r|]
    requires forall k :: |r| <= k < |t| ==> IsSpace(t[k])
    requires |t| > 0 ==> !IsSpace(t[0])
    ensures OccursAt(s, r, |s| - |t|)
    ensures forall k :: |s| - |t| + |r| <= k < |s| ==> IsSpace(s[k])
    ensures |r| > 0 ==> !IsSpace(r[0])
  {
  }

  /** Stripping twice is stripping once. */
  lemma StripIdempotent(s: string)
    ensures Strip(Strip(s)) == Strip(s)
  {
    var r := Strip(s);
    assert TrimStart(r) == r;
    assert TrimEnd(r) == r;
  }

  // ---------------------------------------------------------------------
  // str.split(sep)

  /** s.split(sep): the pieces between the occurrences of sep, scanning from the left. */
  function Split(s: string, sep: string): (ps: seq<string>)
    requires |sep| > 0
    ensures |ps| >= 1
    decreases |s|
  {
    if |s| < |sep| then [s]
    else if s[..|sep|] == sep then [""] + Split(s[|sep|..], sep)
    else
      var ps := Split(s[1..], sep);
      [[s[0]] + ps[0]] + ps[1..]
  }

  /** sep.join(ps). */
  function Join(ps: seq<string>, sep: string): string
    requires |ps| >= 1
    decreases |ps|
  {
    if |ps| == 1 then ps[0] else ps[0] + sep + Join(ps[1..], sep)
  }

  /** Joining the pieces with the separator gives the string back. */
  lemma {:induction false} SplitJoin(s: string, sep: string)
    requires |sep| > 0
    ensures Join(Split(s, sep), sep) == s
    decreases |s|
  {
    if |s| >= |sep| {
      if s[..|sep|] == sep {
        var rest := s[|sep|..];
        SplitJoin(rest, sep);
        JoinEmptyHead(Split(rest, sep), sep);
        assert s == sep + rest;
      } else {
        SplitJoin(s[1..], sep);
        JoinFirstChar(s[0], Split(s[1..], sep), sep);
        assert s == [s[0]] + s[1..];
      }
    }
  }

  /** An empty first piece contributes only its separator. */
  lemma JoinEmptyHead(ps: seq<string>, sep: string)
    requires |ps| >= 1
    ensures Join([""] + ps, sep) == sep + Join(ps, sep)
  {
    assert ([""] + ps)[1..] == ps;
  }

  /** A character put in front of the first piece is put in front of the joined string. */
  lemma JoinFirstChar(c: char, ps: seq<string>, sep: string)
    requires |ps| >= 1
    ensures Join([[c] + ps[0]] + ps[1..], sep) == [c] + Join(ps, sep)
  {
    var qs := [[c] + ps[0]] + ps[1..];
    if |ps| > 1 {
      assert qs[1..] == ps[1..];
      assert ([c] + ps[0]) + sep + Join(ps[1..], sep) == [c] + (ps[0] + sep + Join(ps[1..], sep));
    }
  }

  /** A string without the separator is one piece. */
  lemma {:induction false} SplitAbsent(s: string, sep: string)
    requires |sep| > 0 && !Contains(s, sep)
    ensures Split(s, sep) == [s]
    decreases |s|
  {
    if |s| >= |sep| {
      assert !OccursAt(s, sep, 0);
      assert !Contains(s[1..], sep) by {
        forall i | OccursAt(s[1..], sep, i)
          ensures false
        {
          OccursInTail(s, sep, i);
        }
      }
      SplitAbsent(s[1..], sep);
      assert [s[0]] + s[1..] == s;
    }
  }

  /** The separator's first character does not occur again in it, so two occurrences never overlap. */
  predicate FirstUnique(sep: string) {
    |sep| > 0 && forall k :: 0 < k < |sep| ==> sep[k] != sep[0]
  }

  /** The last piece is what follows the last occurrence of the separator. */
  lemma {:induction false} SplitLast(a: string, sep: string, b: string)
    requires FirstUnique(sep) && !Contains(b, sep)
    ensures var ps := Split(a + sep + b, sep); |ps| >= 2 && ps[|ps| - 1] == b
    decreases |a|
  {
    var s := a + sep + b;
    if |a| == 0 {
      assert s[..|sep|] == sep && s[|sep|..] == b;
      SplitAbsent(b, sep);
    } else {
      if |a| < |sep| {
        NoEarlyMatch(a, sep, b);
      }
      if s[..|sep|] == sep {
        assert s[|sep|..] == a[|sep|..] + sep + b;
        SplitLast(a[|sep|..], sep, b);
        SplitAtSep(s, sep);
        LastOfCons("", Split(s[|sep|..], sep));
      } else {
        assert s[1..] == a[1..] + sep + b;
        SplitLast(a[1..], sep, b);
        var qs := Split(s[1..], sep);
        SplitPastChar(s, sep, qs);
        LastOfCons([s[0]] + qs[0], qs[1..]);
      }
    }
  }

  /** A separator at the front adds an empty first piece. */
  lemma SplitAtSep(s: string, sep: string)
    requires |sep| > 0 && |s| >= |sep| && s[..|sep|] == sep
    ensures Split(s, sep) == [""] + Split(s[|sep|..], sep)
  {
  }

  /** A character that does not start a separator joins the first piece. */
  lemma SplitPastChar(s: string, sep: string, qs: seq<string>)
    requires |sep| > 0 && |s| >= |sep| && s[..|sep|] != sep && qs == Split(s[1..], sep)
    ensures Split(s, sep) == [[s[0]] + qs[0]] + qs[1..]
  {
  }

  lemma LastOfCons<T>(x: T, xs: seq<T>)
    requires |xs| >= 1
    ensures |[x] + xs| >= 2 && ([x] + xs)[|xs|] == xs[|xs| - 1]
  {
  }

  /** A separator whose first character does not recur cannot start inside a shorter prefix and end in itself. */
  lemma NoEarlyMatch(a: string, sep: string, b: string)
    requires FirstUnique(sep) && 0 < |a| < |sep|
    ensures (a + sep + b)[..|sep|] != sep
  {
    var s := a + sep + b;
    assert s[..|sep|][|a|] == s[|a|] == sep[0];
    assert sep[|a|] != sep[0];
  }

  // ---------------------------------------------------------------------
  // clean_llm_response

  const OpenThink := "<think>"
  const CloseThink := "</think>"
  const Bold := "**"
  const Fence := "```"

  /**
   clean_llm_response: when the answer holds an opening think tag, keep
   the stripped text after the last closing tag (all of it when there is
   none); then delete the bold and the code-fence markers, in that order.
   */
  function CleanLlmResponse(response: string): (r: string)
    ensures |r| <= |response|
    ensures !Contains(r, Fence)
  {
    var body := if Contains(response, OpenThink) then Strip(Split(response, CloseThink)[|Split(response, CloseThink)| - 1])
                else response;
    assert |body| <= |response| by {
      if Contains(response, OpenThink) {
        SplitJoin(response, CloseThink);
        LastPieceShorter(Split(response, CloseThink), CloseThink);
      }
    }
    RunRemoved(RemoveAll(body, Bold), Fence);
    RemoveAll(RemoveAll(body, Bold), Fence)
  }

  /** The last piece is a suffix of the joined string. */
  lemma {:induction false} LastPieceShorter(ps: seq<string>, sep: string)
    requires |ps| >= 1
    ensures |ps[|ps| - 1]| <= |Join(ps, sep)|
    decreases |ps|
  {
    if |ps| > 1 {
      LastPieceShorter(ps[1..], sep);
    }
  }

  /** An answer with no think tag and no markers comes back unchanged. */
  lemma CleanUnmarked(response: string)
    requires !Contains(response, OpenThink) && !Contains(response, Bold) && !Contains(response, Fence)
    ensures CleanLlmResponse(response) == response
  {
    RemoveAbsent(response, Bold);
    RemoveAbsent(response, Fence);
  }

  /**
   With a think tag, only the stripped text after the last closing tag is
   kept: for an answer a + "</think>" + b with no closing tag in b, the
   result is b stripped, without its markers.
   */
  lemma CleanAfterThink(a: string, b: string)
    requires Contains(a + CloseThink + b, OpenThink) && !Contains(b, CloseThink)
    ensures CleanLlmResponse(a + CloseThink + b) == RemoveAll(RemoveAll(Strip(b), Bold), Fence)
  {
    CloseThinkFirstUnique(CloseThink);
    SplitLast(a, CloseThink, b);
  }

  lemma CloseThinkFirstUnique(sep: string)
    requires sep == CloseThink
    ensures FirstUnique(sep)
  {
    assert sep == ['<', '/', 't', 'h', 'i', 'n', 'k', '>'];
  }

  /** A think tag that is never closed only costs the surrounding whitespace. */
  lemma CleanUnclosedThink(response: string)
    requires Contains(response, OpenThink) && !Contains(response, CloseThink)
    ensures CleanLlmResponse(response) == RemoveAll(RemoveAll(Strip(response), Bold), Fence)
  {
    SplitAbsent(response, CloseThink);
  }

  /**
   The markers are deleted one kind after the other, so a bold marker can
   survive: deleting the fence in "*```*" joins two stars.
   */
  lemma BoldCanSurvive()
    ensures CleanLlmResponse("*```*") == "**"
  {
    var s := "*```*";
    assert s[0] == '*' && s[1] == '`' && s[2] == '`' && s[3] == '`' && s[4] == '*';
    assert !Contains(s, OpenThink);
    assert !Contains(s, Bold);
    RemoveAbsent(s, Bold);
    assert RemoveAll(s, Fence) == "*" + RemoveAll(s[1..], Fence);
    assert s[1..][..3] == Fence;
  }
}
