/** Cleaning up the vision model's reply before it is parsed: markdown fences
    are removed, surrounding whitespace stripped, and the text from the first
    `[` to one past the last `]` is cut out as the candidate JSON list.
    A reply with no `[` or no `]` takes the error branch instead. */
module Response {

  datatype Option<T> = None | Some(value: T)

  /** The outcome of cleaning a reply: the error branch, which shows the
      cleaned text to the user, or the slice handed to the JSON parser. */
  datatype Extraction = NoJsonList(shown: string) | JsonText(text: string)

  /** The characters Python's `str.strip()` removes by default. */
  const Whitespace: set<char> :=
    {'\t', '\n', '\U{000B}', '\U{000C}', '\r', '\U{001C}', '\U{001D}', '\U{001E}', '\U{001F}',
     ' ', '\U{0085}', '\U{00A0}', '\U{1680}',
     '\U{2000}', '\U{2001}', '\U{2002}', '\U{2003}', '\U{2004}', '\U{2005}', '\U{2006}',
     '\U{2007}', '\U{2008}', '\U{2009}', '\U{200A}',
     '\U{2028}', '\U{2029}', '\U{202F}', '\U{205F}', '\U{3000}'}

  predicate IsSpace(c: char)
  {
    c in Whitespace
  }

  const JsonFence: string := "```json"
  const Fence: string := "```"

  /** `s.replace(pat, rep)`: every occurrence of `pat`, scanning left to right
      without overlaps, is replaced by `rep`. */
  function ReplaceAll(s: string, pat: string, rep: string): (r: string)
    requires pat != []
    ensures rep == pat ==> r == s
    ensures |rep| <= |pat| ==> |r| <= |s|
    ensures |s| < |pat| ==> r == s
    decreases |s|
  {
    if |s| < |pat| then s
    else if s[..|pat|] == pat then rep + ReplaceAll(s[|pat|..], pat, rep)
    else [s[0]] + ReplaceAll(s[1..], pat, rep)
  }

  /** `pat` occurs in `s` starting at position `i`. */
  predicate OccursAt(s: string, pat: string, i: int)
  {
    0 <= i && i + |pat| <= |s| && s[i..i + |pat|] == pat
  }

  predicate Occurs(s: string, pat: string)
  {
    exists i :: 0 <= i <= |s| && OccursAt(s, pat, i)
  }

  /** A text in which the pattern occurs nowhere is returned unchanged. */
  lemma {:induction false} NoOccurrenceUnchanged(s: string, pat: string, rep: string)
    requires pat != [] && !Occurs(s, pat)
    ensures ReplaceAll(s, pat, rep) == s
    decreases |s|
  {
    if |s| >= |pat| {
      assert !OccursAt(s, pat, 0);
      assert s[..|pat|] == s[0..0 + |pat|];
      forall i | OccursAt(s[1..], pat, i)
        ensures OccursAt(s, pat, i + 1)
      {
        assert s[i + 1..i + 1 + |pat|] == s[1..][i..i + |pat|];
      }
      NoOccurrenceUnchanged(s[1..], pat, rep);
      assert s == [s[0]] + s[1..];
    }
  }

  /** With a replacement shorter than the pattern, a text in which the
      pattern occurs gets strictly shorter. */
  lemma {:induction false} OccurrenceShrinks(s: string, pat: string, rep: string)
    requires pat != [] && |rep| < |pat| && Occurs(s, pat)
    ensures |ReplaceAll(s, pat, rep)| < |s|
    decreases |s|
  {
    var i :| 0 <= i <= |s| && OccursAt(s, pat, i);
    assert |pat| <= |s|;
    if s[..|pat|] != pat {
      assert i != 0 by {
        assert s[..|pat|] == s[0..0 + |pat|];
      }
      assert s[1..][i - 1..i - 1 + |pat|] == s[i..i + |pat|];
      assert OccursAt(s[1..], pat, i - 1);
      OccurrenceShrinks(s[1..], pat, rep);
    }
  }

  /** Replacing by something shorter, as the fence removal does, changes the
      text exactly when the pattern occurs in it. */
  lemma ReplaceChangesIff(s: string, pat: string, rep: string)
    requires pat != [] && |rep| < |pat|
    ensures ReplaceAll(s, pat, rep) == s <==> !Occurs(s, pat)
  {
    if Occurs(s, pat) {
      OccurrenceShrinks(s, pat, rep);
    } else {
      NoOccurrenceUnchanged(s, pat, rep);
    }
  }

  /** A character in neither `pat` nor `rep` occurs after the replacement
      exactly when it occurred before. */
  lemma {:induction false} ReplaceKeepsChar(s: string, pat: string, rep: string, c: char)
    requires pat != [] && c !in pat && c !in rep
    ensures c in ReplaceAll(s, pat, rep) <==> c in s
    decreases |s|
  {
    if |s| < |pat| {
    } else if s[..|pat|] == pat {
      ReplaceKeepsChar(s[|pat|..], pat, rep, c);
      assert s == s[..|pat|] + s[|pat|..];
    } else {
      ReplaceKeepsChar(s[1..], pat, rep, c);
      assert s == [s[0]] + s[1..];
    }
  }

  /** `s.lstrip()`: the longest suffix of `s` that does not start with
      whitespace; everything dropped is whitespace. */
  function TrimStart(s: string): (r: string)
    ensures |r| <= |s| && r == s[|s| - |r|..]
    ensures r != [] ==> !IsSpace(r[0])
    ensures forall k :: 0 <= k < |s| - |r| ==> IsSpace(s[k])
  {
    if s != [] && IsSpace(s[0]) then
      var r := TrimStart(s[1..]);
      assert s[|s| - |r|..] == s[1..][|s| - 1 - |r|..];
      assert forall k :: 1 <= k < |s| - |r| ==> s[k] == s[1..][k - 1];
      r
    else s
  }

  /** `s.rstrip()`: the longest prefix of `s` that does not end with
      whitespace; everything dropped is whitespace. */
  function TrimEnd(s: string): (r: string)
    ensures |r| <= |s| && r == s[..|r|]
    ensures r != [] ==> !IsSpace(r[|r| - 1])
    ensures forall k :: |r| <= k < |s| ==> IsSpace(s[k])
  {
    if s != [] && IsSpace(s[|s| - 1]) then
      var r := TrimEnd(s[..|s| - 1]);
      assert s[..|r|] == s[..|s| - 1][..|r|];
      assert forall k :: |r| <= k < |s| - 1 ==> s[k] == s[..|s| - 1][k];
      r
    else s
  }

  /** `r` is the part of `s` starting at `a`, and everything of `s` before
      and after it is whitespace. */
  predicate MiddleAt(s: string, r: string, a: int)
  {
    && 0 <= a && a + |r| <= |s| && s[a..a + |r|] == r
    && (forall k :: 0 <= k < a ==> IsSpace(s[k]))
    && (forall k :: a + |r| <= k < |s| ==> IsSpace(s[k]))
  }

  /** `s.strip()`: a contiguous middle part of `s` with only whitespace
      dropped around it, and neither end of it is whitespace. */
  function Strip(s: string): (r: string)
    ensures r == [] || (!IsSpace(r[0]) && !IsSpace(r[|r| - 1]))
    ensures exists a :: MiddleAt(s, r, a)
  {
    MiddleOfTrims(s, TrimStart(s), TrimEnd(TrimStart(s)));
    TrimEnd(TrimStart(s))
  }

  /** Dropping a whitespace prefix (giving `t`) and then a whitespace
      suffix (giving `r`) leaves a middle part of `s`. */
  lemma MiddleOfTrims(s: string, t: string, r: string)
    requires |t| <= |s| && t == s[|s| - |t|..]
    requires forall k :: 0 <= k < |s| - |t| ==> IsSpace(s[k])
    requires |r| <= |t| && r == t[..|r|]
    requires forall k :: |r| <= k < |t| ==> IsSpace(t[k])
    ensures MiddleAt(s, r, |s| - |t|)
  {
    var a := |s| - |t|;
    assert s[a..a + |r|] == r;
    forall k | a + |r| <= k < |s|
      ensures IsSpace(s[k])
    {
      assert s[k] == t[k - a];
    }
  }

  lemma {:induction false} TrimStartKeepsChar(s: string, c: char)
    requires !IsSpace(c)
    ensures c in TrimStart(s) <==> c in s
  {
    if s != [] && IsSpace(s[0]) {
      TrimStartKeepsChar(s[1..], c);
      assert s == [s[0]] + s[1..];
    }
  }

  lemma TrimEndKeepsChar(s: string, c: char)
    requires !IsSpace(c)
    ensures c in TrimEnd(s) <==> c in s
  {
    var u := TrimEnd(s);
    if c in s {
      var k :| 0 <= k < |s| && s[k] == c;
      assert k < |u|;
      assert u[k] == s[k];
    }
  }

  /** Stripping keeps every character that is not whitespace. */
  lemma StripKeepsChar(s: string, c: char)
    requires !IsSpace(c)
    ensures c in Strip(s) <==> c in s
  {
    TrimStartKeepsChar(s, c);
    TrimEndKeepsChar(TrimStart(s), c);
  }

  /** `s.find(c)`: the index of the first `c`, or -1 when there is none. */
  function Find(s: string, c: char): (r: int)
    ensures r == -1 <==> c !in s
    ensures -1 <= r < |s|
    ensures 0 <= r ==> s[r] == c && forall j :: 0 <= j < r ==> s[j] != c
  {
    if s == [] then -1
    else if s[0] == c then 0
    else
      var k := Find(s[1..], c);
      if k == -1 then -1 else k + 1
  }

  /** `s.rfind(c)`: the index of the last `c`, or -1 when there is none. */
  function RFind(s: string, c: char): (r: int)
    ensures r == -1 <==> c !in s
    ensures -1 <= r < |s|
    ensures 0 <= r ==> s[r] == c && forall j :: r < j < |s| ==> s[j] != c
  {
    if s == [] then -1
    else if s[|s| - 1] == c then |s| - 1
    else
      var init := s[..|s| - 1];
      assert s == init + [s[|s| - 1]];
      RFind(init, c)
  }

  /** `response.text or ""`: the reply's text, or the empty string when the
      reply carries none. */
  function RawText(response: Option<string>): (r: string)
    ensures response.None? ==> r == ""
    ensures response.Some? ==> r == response.value
  {
    match response
    case None => ""
    case Some(t) => t
  }

  /** The cleaned reply: fences removed, then whitespace stripped. */
  function Clean(raw: string): (r: string)
    ensures r == [] || (!IsSpace(r[0]) && !IsSpace(r[|r| - 1]))
    ensures exists a :: MiddleAt(ReplaceAll(ReplaceAll(raw, JsonFence, ""), Fence, ""), r, a)
  {
    Strip(ReplaceAll(ReplaceAll(raw, JsonFence, ""), Fence, ""))
  }

  /** `t` sits in `c` at position `a`, with no `[` before it and no `]`
      after it. */
  predicate OuterSpanAt(c: string, t: string, a: int)
  {
    && 0 <= a && a + |t| <= |c| && c[a..a + |t|] == t
    && (forall j :: 0 <= j < a ==> c[j] != '[')
    && (forall j :: a + |t| <= j < |c| ==> c[j] != ']')
  }

  /** The list slicing on cleaned text `c`.  The error branch is taken
      exactly when `c` lacks `[` or lacks `]`, and it shows `c`.  Otherwise a
      non-empty slice exists exactly when some `[` comes before some `]`; it
      then starts with `[`, ends with `]`, and is the span of `c` from its
      first `[` to its last `]`.  When every `]` comes before every `[`,
      Python's slice is empty. */
  function SliceList(c: string): (r: Extraction)
    ensures r.NoJsonList? <==> ('[' !in c || ']' !in c)
    ensures r.NoJsonList? ==> r.shown == c
    ensures r.JsonText? ==>
              (r.text != [] <==> exists i, j :: 0 <= i < j < |c| && c[i] == '[' && c[j] == ']')
    ensures r.JsonText? && r.text != [] ==>
              r.text[0] == '[' && r.text[|r.text| - 1] == ']' && exists a :: OuterSpanAt(c, r.text, a)
  {
    var start := Find(c, '[');
    var end := RFind(c, ']') + 1;
    if start == -1 || end == 0 then NoJsonList(c)
    else if start < end then
      assert OuterSpanAt(c, c[start..end], start);
      JsonText(c[start..end])
    else
      JsonText([])
  }

  /** The reply handling from the model's text up to the JSON parser.
      Cleaning never adds or removes a bracket, so the error branch is taken
      exactly when the reply itself lacks `[` or `]`. */
  function ExtractList(response: Option<string>): (r: Extraction)
    ensures r.NoJsonList? <==> ('[' !in RawText(response) || ']' !in RawText(response))
  {
    var raw := RawText(response);
    BracketsSurviveCleaning(raw, '[');
    BracketsSurviveCleaning(raw, ']');
    SliceList(Clean(raw))
  }

  lemma BracketsSurviveCleaning(raw: string, b: char)
    requires b == '[' || b == ']'
    ensures b in Clean(raw) <==> b in raw
  {
    assert !IsSpace(b);
    var once := ReplaceAll(raw, JsonFence, "");
    ReplaceKeepsChar(raw, JsonFence, "", b);
    ReplaceKeepsChar(once, Fence, "", b);
    StripKeepsChar(ReplaceAll(once, Fence, ""), b);
  }

  // ---------------------------------------------------------------------
  // Fences

  predicate FenceAt(s: string, i: int)
    requires 0 <= i && i + 3 <= |s|
  {
    s[i] == '`' && s[i + 1] == '`' && s[i + 2] == '`'
  }

  predicate NoFence(s: string)
  {
    forall i :: 0 <= i && i + 3 <= |s| ==> !FenceAt(s, i)
  }

  predicate StartsWithTwoTicks(s: string)
  {
    |s| >= 2 && s[0] == '`' && s[1] == '`'
  }

  /** Removing fences from a string that does not start with two backticks
      gives a string that does not either. */
  lemma NoTwoTicksKept(u: string)
    requires !StartsWithTwoTicks(u)
    ensures !StartsWithTwoTicks(ReplaceAll(u, Fence, ""))
  {
    if |u| >= 3 {
      assert u[..3] != Fence;
      if u[0] == '`' {
        var v := u[1..];
        if |v| >= 3 {
          assert v[..3] != Fence;
        }
      }
    }
  }

  /** Removing "```" leaves no "```" behind: a removal never joins backticks
      on either side into a new fence. */
  lemma {:induction false} FenceRemovalIsComplete(s: string)
    ensures NoFence(ReplaceAll(s, Fence, ""))
    decreases |s|
  {
    var r := ReplaceAll(s, Fence, "");
    if |s| < 3 {
    } else if s[..3] == Fence {
      FenceRemovalIsComplete(s[3..]);
      assert r == ReplaceAll(s[3..], Fence, "");
    } else {
      var tail := ReplaceAll(s[1..], Fence, "");
      FenceRemovalIsComplete(s[1..]);
      assert r == [s[0]] + tail;
      forall i | 0 <= i && i + 3 <= |r| ensures !FenceAt(r, i) {
        if i == 0 {
          if s[0] == '`' {
            assert !StartsWithTwoTicks(s[1..]) by {
              assert s[..3] == [s[0], s[1], s[2]];
            }
            NoTwoTicksKept(s[1..]);
          }
        } else {
          assert !FenceAt(tail, i - 1);
        }
      }
    }
  }

  lemma NoFenceSlice(s: string, a: int, b: int)
    requires NoFence(s) && 0 <= a <= b <= |s|
    ensures NoFence(s[a..b])
  {
    forall i | 0 <= i && i + 3 <= b - a ensures !FenceAt(s[a..b], i) {
      assert !FenceAt(s, a + i);
    }
  }

  /** The cleaned reply contains no markdown fence. */
  lemma CleanHasNoFence(raw: string)
    ensures NoFence(Clean(raw))
  {
    var s := ReplaceAll(ReplaceAll(raw, JsonFence, ""), Fence, "");
    FenceRemovalIsComplete(ReplaceAll(raw, JsonFence, ""));
    var t := TrimStart(s);
    NoFenceSlice(s, |s| - |t|, |s|);
    assert t == s[|s| - |t|..|s|];
    NoFenceSlice(t, 0, |TrimEnd(t)|);
  }

  lemma JsonFenceRemovalExample()
    ensures ReplaceAll("```json\n[]\n```", JsonFence, "") == "\n[]\n```"
  {
    var raw := "```json\n[]\n```";
    assert raw[..7] == JsonFence && raw[7..] == "\n[]\n```";
    var r1 := "\n[]\n```";
    assert r1[..7] != JsonFence && r1[1..] == "[]\n```";
  }

  lemma FenceRemovalExample()
    ensures ReplaceAll("\n[]\n```", Fence, "") == "\n[]\n"
  {
    var t3 := "```";
    assert t3[..3] == Fence && t3[3..] == "";
    assert ReplaceAll(t3, Fence, "") == "";
    var t2 := "\n```";
    assert t2[..3][0] != Fence[0] && t2[1..] == t3;
    assert ReplaceAll(t2, Fence, "") == "\n";
    var t1 := "]\n```";
    assert t1[..3][0] != Fence[0] && t1[1..] == t2;
    assert ReplaceAll(t1, Fence, "") == "]\n";
    var t0 := "[]\n```";
    assert t0[..3][0] != Fence[0] && t0[1..] == t1;
    assert ReplaceAll(t0, Fence, "") == "[]\n";
    var r1 := "\n[]\n```";
    assert r1[..3][0] != Fence[0] && r1[1..] == t0;
  }

  lemma TrimStartExample()
    ensures TrimStart("\n[]\n") == "[]\n"
  {
    var w := "\n[]\n";
    assert w[0] == '\n' && IsSpace('\n') && w[1..] == "[]\n";
    var v := "[]\n";
    assert v[0] == '[' && !IsSpace('[');
  }

  lemma TrimEndExample()
    ensures TrimEnd("[]\n") == "[]"
  {
    var v := "[]\n";
    assert v[2] == '\n' && IsSpace('\n') && v[..2] == "[]";
    var u := "[]";
    assert u[1] == ']' && !IsSpace(']');
  }

  lemma SliceExample()
    ensures SliceList("[]") == JsonText("[]")
  {
    assert Find("[]", '[') == 0;
    assert RFind("[]", ']') == 1;
    assert "[]"[0..2] == "[]";
  }

  /** A fenced reply loses its fences and the whitespace around them. */
  lemma FencedReplyExample()
    ensures ExtractList(Some("```json\n[]\n```")) == JsonText("[]")
  {
    JsonFenceRemovalExample();
    FenceRemovalExample();
    TrimStartExample();
    TrimEndExample();
    assert Clean("```json\n[]\n```") == "[]";
    SliceExample();
  }
}
