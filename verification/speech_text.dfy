/**
  The text that `generateSpeechFromText` sends to the speech model
  (services/geminiService.ts:63-65): every style block replaced by a short
  notice, every tag by a space, every whitespace run by one space, and the
  ends trimmed. Each global regular-expression replacement is a scan from
  left to right that tries a match at the current position and, after a
  match, resumes just past it.
 */
module SpeechText {
  import opened Wrappers

  /**
    ECMAScript white space and line terminators: the class `\s` and what
    `String.prototype.trim` removes.
   */
  predicate IsJsSpace(c: char) {
    c as int in JsSpaceCodes
  }

  const JsSpaceCodes: set<int> := {
    9, 10, 11, 12, 13, 0x20, 0xA0, 0x1680,
    0x2000, 0x2001, 0x2002, 0x2003, 0x2004, 0x2005, 0x2006, 0x2007, 0x2008, 0x2009, 0x200A,
    0x2028, 0x2029, 0x202F, 0x205F, 0x3000, 0xFEFF
  }

  /** The first position at or after `from` holding `c`. */
  function IndexOf(s: string, c: char, from: nat): (r: Option<nat>)
    ensures r.Some? ==> from <= r.value < |s| && s[r.value] == c
    ensures r.Some? ==> forall k :: from <= k < r.value ==> s[k] != c
    ensures r.None? <==> forall k :: from <= k < |s| ==> s[k] != c
    decreases |s| - from
  {
    if from >= |s| then None
    else if s[from] == c then Some(from)
    else IndexOf(s, c, from + 1)
  }

  // ---------------------------------------------------------------------
  // Style blocks: /<style[^>]*>[\s\S]*?<\/style>/gi

  /** ASCII letters to lower case; the only folding the `i` flag does on these patterns. */
  function LowerAscii(c: char): (r: char)
    ensures 'A' <= c <= 'Z' ==> r as int == c as int + 32
    ensures !('A' <= c <= 'Z') ==> r == c
  {
    if 'A' <= c <= 'Z' then (c as int + 32) as char else c
  }

  /** `u` starts with `pattern` (written in lower case), letters compared without case. */
  predicate StartsIgnoringCase(u: string, pattern: string) {
    |u| >= |pattern| && forall i :: 0 <= i < |pattern| ==> LowerAscii(u[i]) == pattern[i]
  }

  const StyleOpen := "<style"
  const StyleClose := "</style>"

  /** The text a style block is replaced with (services/geminiService.ts:63). */
  const StylingNotice := "The page contains custom styling. "

  /** A closing style tag, in any letter case, starts at position `k` of `u`. */
  predicate ClosesAt(u: string, k: nat) {
    k <= |u| && StartsIgnoringCase(u[k..], StyleClose)
  }

  /** The first position at or after `from` where a closing style tag starts. */
  function FindStyleClose(u: string, from: nat): (r: Option<nat>)
    ensures r.Some? ==> from <= r.value && r.value + |StyleClose| <= |u| && ClosesAt(u, r.value)
    ensures r.Some? ==> forall k :: from <= k < r.value ==> !ClosesAt(u, k)
    ensures r.None? ==> forall k :: from <= k <= |u| ==> !ClosesAt(u, k)
    decreases |u| - from
  {
    if from + |StyleClose| > |u| then None
    else if ClosesAt(u, from) then Some(from)
    else FindStyleClose(u, from + 1)
  }

  /**
    The length of the style block starting at the front of `u`, if one
    does: "<style", up to the first '>', then the shortest run of anything
    up to "</style>". No backtracking can help when the first '>' or the
    first closing tag is missing, since `[^>]*` cannot cross a '>'.
   */
  function StyleMatchLen(u: string): (r: Option<nat>)
    ensures r.Some? ==> 15 <= r.value <= |u|
    ensures r.Some? ==> StartsIgnoringCase(u, StyleOpen)
    ensures r.Some? ==> '>' in u[6..r.value - 8]
  {
    if !StartsIgnoringCase(u, StyleOpen) then None
    else match IndexOf(u, '>', 6)
      case None => None
      case Some(j) =>
        match FindStyleClose(u, j + 1)
        case None => None
        case Some(k) =>
          assert u[6..k][j - 6] == '>';
          Some(k + 8)
  }

  /** The first replacement (services/geminiService.ts:63). */
  function StripStyle(s: string): (r: string)
    decreases |s|
  {
    if |s| == 0 then []
    else match StyleMatchLen(s)
      case Some(n) => StylingNotice + StripStyle(s[n..])
      case None => [s[0]] + StripStyle(s[1..])
  }

  // ---------------------------------------------------------------------
  // Tags: /<[^>]+>/g

  /** A tag starts at the front of `u`: '<', at least one character other than '>', then '>'. */
  predicate TagAt(u: string) {
    |u| >= 2 && u[0] == '<' && u[1] != '>' && '>' in u[2..]
  }

  /** No tag starts anywhere in `s`. */
  predicate TagFree(s: string) {
    forall i :: 0 <= i < |s| ==> !TagAt(s[i..])
  }

  /** The length of the tag at the front of `u`: up to and including the first '>' after the '<'. */
  function TagLen(u: string): (r: nat)
    requires TagAt(u)
    ensures 3 <= r <= |u| && u[r - 1] == '>'
    ensures forall k :: 1 <= k < r - 1 ==> u[k] != '>'
  {
    var j := IndexOf(u, '>', 2);
    assert j.Some? by {
      var k :| 0 <= k < |u[2..]| && u[2..][k] == '>';
      assert u[k + 2] == '>';
    }
    j.value + 1
  }

  /** The second replacement (services/geminiService.ts:64). */
  function StripTags(s: string): (r: string)
    decreases |s|
  {
    if |s| == 0 then []
    else if TagAt(s) then " " + StripTags(s[TagLen(s)..])
    else [s[0]] + StripTags(s[1..])
  }

  // ---------------------------------------------------------------------
  // Whitespace: /\s+/g replaced by ' ', then trim()

  /** `s` without its leading white space. */
  function DropSpaces(s: string): (r: string)
    ensures |r| <= |s| && r == s[|s| - |r|..]
    ensures r == [] || !IsJsSpace(r[0])
    ensures forall k :: 0 <= k < |s| - |r| ==> IsJsSpace(s[k])
    decreases |s|
  {
    if |s| > 0 && IsJsSpace(s[0]) then DropSpaces(s[1..]) else s
  }

  /** The third replacement (services/geminiService.ts:65): each maximal run of white space becomes one space. */
  function Collapse(s: string): (r: string)
    decreases |s|
  {
    if |s| == 0 then []
    else if IsJsSpace(s[0]) then " " + Collapse(DropSpaces(s))
    else [s[0]] + Collapse(s[1..])
  }

  /** `s` without its trailing white space. */
  function DropTrailingSpaces(s: string): (r: string)
    ensures |r| <= |s| && r == s[..|r|]
    ensures r == [] || !IsJsSpace(r[|r| - 1])
    ensures forall k :: |r| <= k < |s| ==> IsJsSpace(s[k])
    decreases |s|
  {
    if |s| > 0 && IsJsSpace(s[|s| - 1]) then DropTrailingSpaces(s[..|s| - 1]) else s
  }

  /** `String.prototype.trim`. */
  function Trim(s: string): (r: string)
  {
    DropTrailingSpaces(DropSpaces(s))
  }

  /** The whole pipeline of services/geminiService.ts:63-65. */
  function Normalize(text: string): (r: string)
  {
    Trim(Collapse(StripTags(StripStyle(text))))
  }

  // ---------------------------------------------------------------------
  // Shape of the result

  /** White space, where it occurs, is a single plain space. */
  predicate Collapsed(s: string) {
    forall i :: 0 <= i < |s| && IsJsSpace(s[i]) ==> s[i] == ' ' && (i + 1 < |s| ==> !IsJsSpace(s[i + 1]))
  }

  /** No white space at either end. */
  predicate Trimmed(s: string) {
    |s| == 0 || (!IsJsSpace(s[0]) && !IsJsSpace(s[|s| - 1]))
  }

  /** The characters of `s` that are not white space, in order. */
  function Visible(s: string): (r: string)
    ensures |r| <= |s|
  {
    if |s| == 0 then [] else (if IsJsSpace(s[0]) then [] else [s[0]]) + Visible(s[1..])
  }

  lemma {:induction false} VisibleAppend(a: string, b: string)
    ensures Visible(a + b) == Visible(a) + Visible(b)
    decreases |a|
  {
    if |a| > 0 {
      assert (a + b)[1..] == a[1..] + b;
      VisibleAppend(a[1..], b);
    } else {
      assert a + b == b;
    }
  }

  lemma {:induction false} VisibleOfSpaces(s: string)
    requires forall k :: 0 <= k < |s| ==> IsJsSpace(s[k])
    ensures Visible(s) == []
    decreases |s|
  {
    if |s| > 0 {
      VisibleOfSpaces(s[1..]);
    }
  }

  /** Collapsing only touches white space: the visible characters are kept, in order. */
  lemma {:induction false} CollapseKeepsVisible(s: string)
    ensures Visible(Collapse(s)) == Visible(s)
    decreases |s|
  {
    if |s| > 0 {
      if IsJsSpace(s[0]) {
        var d := DropSpaces(s);
        CollapseKeepsVisible(d);
        VisibleAppend(" ", Collapse(d));
        assert s == s[..|s| - |d|] + d;
        VisibleAppend(s[..|s| - |d|], d);
        VisibleOfSpaces(s[..|s| - |d|]);
      } else {
        CollapseKeepsVisible(s[1..]);
        VisibleAppend([s[0]], Collapse(s[1..]));
      }
    }
  }

  /** Trimming only removes white space. */
  lemma TrimKeepsVisible(s: string)
    ensures Visible(Trim(s)) == Visible(s)
  {
    DropSpacesKeepsVisible(s);
    DropTrailingSpacesKeepsVisible(DropSpaces(s));
  }

  lemma DropSpacesKeepsVisible(s: string)
    ensures Visible(DropSpaces(s)) == Visible(s)
  {
    var d := DropSpaces(s);
    var spaces := s[..|s| - |d|];
    assert s == spaces + d;
    VisibleAppend(spaces, d);
    VisibleOfSpaces(spaces);
  }

  lemma DropTrailingSpacesKeepsVisible(s: string)
    ensures Visible(DropTrailingSpaces(s)) == Visible(s)
  {
    var t := DropTrailingSpaces(s);
    var spaces := s[|t|..];
    assert s == t + spaces;
    VisibleAppend(t, spaces);
    VisibleOfSpaces(spaces);
  }

  /** A collapsed string starts with a space exactly when the input starts with white space. */
  lemma CollapseHead(s: string)
    requires |s| > 0
    ensures |Collapse(s)| > 0
    ensures Collapse(s)[0] == (if IsJsSpace(s[0]) then ' ' else s[0])
  {
  }

  /** Collapsing leaves no run of two white-space characters and no white space other than ' '. */
  lemma {:induction false} CollapseIsCollapsed(s: string)
    ensures Collapsed(Collapse(s))
    decreases |s|
  {
    if |s| > 0 {
      if IsJsSpace(s[0]) {
        var d := DropSpaces(s);
        CollapseIsCollapsed(d);
        if |d| > 0 {
          CollapseHead(d);
        }
        CollapsedCons(' ', Collapse(d));
        assert Collapse(s) == [' '] + Collapse(d);
      } else {
        CollapseIsCollapsed(s[1..]);
        CollapsedCons(s[0], Collapse(s[1..]));
        CollapseVisibleHead(s);
      }
    }
  }

  /** A visible character, or a plain space before a visible one, keeps a collapsed string collapsed. */
  lemma CollapsedCons(c: char, t: string)
    requires Collapsed(t)
    requires !IsJsSpace(c) || (c == ' ' && (t == [] || !IsJsSpace(t[0])))
    ensures Collapsed([c] + t)
  {
    var u := [c] + t;
    forall i | 0 <= i < |u| && IsJsSpace(u[i])
      ensures u[i] == ' ' && (i + 1 < |u| ==> !IsJsSpace(u[i + 1]))
    {
      if i > 0 {
        assert u[i] == t[i - 1];
        assert i + 1 < |u| ==> u[i + 1] == t[i];
      }
    }
  }

  /** A string that is already collapsed is left alone. */
  lemma {:induction false} CollapseFixesCollapsed(s: string)
    requires Collapsed(s)
    ensures Collapse(s) == s
    decreases |s|
  {
    if |s| > 0 {
      CollapsedSlice(s, 1, |s|);
      assert s[1..|s|] == s[1..];
      CollapseFixesCollapsed(s[1..]);
      if !IsJsSpace(s[0]) {
        CollapseVisibleHead(s);
      } else if |s| > 1 {
        CollapseSingleSpace(s);
      }
      assert s == [s[0]] + s[1..];
    }
  }

  /** Collapsing twice is collapsing once. */
  lemma CollapseIdempotent(s: string)
    ensures Collapse(Collapse(s)) == Collapse(s)
  {
    CollapseIsCollapsed(s);
    CollapseFixesCollapsed(Collapse(s));
  }

  /** A piece of a collapsed string is collapsed. */
  lemma CollapsedSlice(s: string, a: nat, b: nat)
    requires Collapsed(s) && a <= b <= |s|
    ensures Collapsed(s[a..b])
  {
    forall i | 0 <= i < |s[a..b]| && IsJsSpace(s[a..b][i])
      ensures s[a..b][i] == ' ' && (i + 1 < |s[a..b]| ==> !IsJsSpace(s[a..b][i + 1]))
    {
      assert s[a..b][i] == s[a + i];
    }
  }

  /** The trimmed result has no white space at its ends, and is a piece of its input. */
  lemma TrimShape(s: string)
    ensures Trimmed(Trim(s))
    ensures exists a: nat, b: nat :: a <= b <= |s| && Trim(s) == s[a..b]
  {
    TrimEnds(s);
    TrimPiece(s);
  }

  lemma TrimEnds(s: string)
    ensures Trimmed(Trim(s))
  {
    var d := DropSpaces(s);
    var t := DropTrailingSpaces(d);
    if t != [] {
      assert t[0] == d[0];
    }
  }

  lemma TrimPiece(s: string)
    ensures exists a: nat, b: nat :: a <= b <= |s| && Trim(s) == s[a..b]
  {
    var d := DropSpaces(s);
    var t := DropTrailingSpaces(d);
    PrefixOfSuffix(s, |s| - |d|, t);
  }

  lemma PrefixOfSuffix(s: string, a: nat, t: string)
    requires a <= |s| && |t| <= |s| - a && t == s[a..][..|t|]
    ensures t == s[a..a + |t|]
  {
  }

  /** Trimming a trimmed string changes nothing. */
  lemma TrimFixesTrimmed(s: string)
    requires Trimmed(s)
    ensures Trim(s) == s
  {
  }

  // ---------------------------------------------------------------------
  // Tags

  lemma TagFreeSuffix(s: string, k: nat)
    requires TagFree(s) && k <= |s|
    ensures TagFree(s[k..])
  {
    forall i | 0 <= i < |s[k..]|
      ensures !TagAt(s[k..][i..])
    {
      assert s[k..][i..] == s[k + i..];
    }
  }

  /** A tag inside a prefix is a tag of the whole string. */
  lemma TagAtPrefix(u: string, m: nat)
    requires m <= |u| && TagAt(u[..m])
    ensures TagAt(u)
  {
    var k :| 0 <= k < |u[..m][2..]| && u[..m][2..][k] == '>';
    assert u[2..][k] == '>';
  }

  lemma TagFreePrefix(s: string, m: nat)
    requires TagFree(s) && m <= |s|
    ensures TagFree(s[..m])
  {
    forall i | 0 <= i < m
      ensures !TagAt(s[..m][i..])
    {
      assert s[..m][i..] == s[i..][..m - i];
      assert !TagAt(s[i..]);
    }
  }

  /** Putting `c` in front of a tag-free string that does not start a tag there keeps it tag-free. */
  lemma TagFreeCons(c: char, t: string)
    requires TagFree(t) && !TagAt([c] + t)
    ensures TagFree([c] + t)
  {
    forall i | 0 <= i < |[c] + t|
      ensures !TagAt(([c] + t)[i..])
    {
      if i > 0 {
        assert ([c] + t)[i..] == t[i - 1..];
      }
    }
  }

  /** Tag stripping introduces no characters other than spaces. */
  lemma {:induction false} StripTagsChars(s: string)
    ensures forall c :: c in StripTags(s) ==> c in s || c == ' '
    decreases |s|
  {
    if |s| > 0 {
      if TagAt(s) {
        StripTagsChars(s[TagLen(s)..]);
        assert forall c :: c in s[TagLen(s)..] ==> c in s;
      } else {
        StripTagsChars(s[1..]);
        assert forall c :: c in s[1..] ==> c in s;
      }
    }
  }

  /** Tag stripping leaves no tag behind (services/geminiService.ts:64). */
  lemma {:induction false} StripTagsIsTagFree(s: string)
    ensures TagFree(StripTags(s))
    decreases |s|
  {
    if |s| > 0 {
      if TagAt(s) {
        StripTagsIsTagFree(s[TagLen(s)..]);
        TagFreeCons(' ', StripTags(s[TagLen(s)..]));
      } else {
        var rest := StripTags(s[1..]);
        StripTagsIsTagFree(s[1..]);
        assert StripTags(s) == [s[0]] + rest;
        if s[0] == '<' && |s| >= 2 {
          if s[1] == '>' {
            assert !TagAt(s[1..]);
            assert rest[0] == '>';
          } else {
            assert !TagAt(s[1..]);
            assert rest == [s[1]] + StripTags(s[2..]);
            StripTagsChars(s[2..]);
            assert '>' !in rest[1..];
            assert ([s[0]] + rest)[2..] == rest[1..];
          }
        }
        TagFreeCons(s[0], rest);
      }
    }
  }

  /** A tag-free string is left alone by tag stripping. */
  lemma {:induction false} StripTagsFixesTagFree(s: string)
    requires TagFree(s)
    ensures StripTags(s) == s
    decreases |s|
  {
    if |s| > 0 {
      assert !TagAt(s[0..]);
      TagFreeSuffix(s, 1);
      StripTagsFixesTagFree(s[1..]);
    }
  }

  /** Tag stripping changes a string exactly when the string holds a tag. */
  lemma StripTagsFixpoints(s: string)
    ensures StripTags(s) == s <==> TagFree(s)
  {
    if TagFree(s) {
      StripTagsFixesTagFree(s);
    } else {
      StripTagsIsTagFree(s);
    }
  }

  /** Stripping tags twice is stripping them once. */
  lemma StripTagsIdempotent(s: string)
    ensures StripTags(StripTags(s)) == StripTags(s)
  {
    StripTagsIsTagFree(s);
    StripTagsFixesTagFree(StripTags(s));
  }

  /** Collapsing white space creates no tag. */
  lemma {:induction false} CollapseKeepsTagFree(s: string)
    requires TagFree(s)
    ensures TagFree(Collapse(s))
    decreases |s|
  {
    if |s| > 0 {
      if IsJsSpace(s[0]) {
        var d := DropSpaces(s);
        TagFreeSuffix(s, |s| - |d|);
        CollapseKeepsTagFree(d);
        TagFreeCons(' ', Collapse(d));
      } else {
        TagFreeSuffix(s, 1);
        CollapseKeepsTagFree(s[1..]);
        CollapseNoTagAtFront(s);
        CollapseVisibleHead(s);
        TagFreeCons(s[0], Collapse(s[1..]));
      }
    }
  }

  /** Collapsing the rest of a tag-free string does not make its first character start a tag. */
  lemma CollapseNoTagAtFront(s: string)
    requires |s| > 0 && !IsJsSpace(s[0]) && TagFree(s)
    ensures !TagAt([s[0]] + Collapse(s[1..]))
  {
    if s[0] == '<' && |s| >= 2 {
      assert !TagAt(s[0..]);
      assert s[0..] == s;
      var rest := Collapse(s[1..]);
      if s[1] == '>' {
        CollapseHead(s[1..]);
      } else {
        assert '>' !in s[2..];
        if IsJsSpace(s[1]) {
          CollapseSpacedTail(s);
        } else {
          CollapseVisibleHead(s[1..]);
          assert s[1..][1..] == s[2..];
          CollapseChars(s[2..]);
          assert ([s[0]] + rest)[2..] == Collapse(s[2..]);
        }
      }
    }
  }

  lemma CollapseSpacedTail(s: string)
    requires |s| >= 2 && IsJsSpace(s[1]) && '>' !in s[2..]
    ensures '>' !in Collapse(s[1..])[1..]
  {
    var d := DropSpaces(s[1..]);
    assert Collapse(s[1..]) == " " + Collapse(d);
    assert d == s[1..][|s[1..]| - |d|..];
    assert forall c :: c in d ==> c in s[2..];
    CollapseChars(d);
    assert Collapse(s[1..])[1..] == Collapse(d);
  }

  /** Collapsing introduces no characters other than spaces. */
  lemma {:induction false} CollapseChars(s: string)
    ensures forall c :: c in Collapse(s) ==> c in s || c == ' '
    decreases |s|
  {
    if |s| > 0 {
      if IsJsSpace(s[0]) {
        CollapseChars(DropSpaces(s));
      } else {
        CollapseChars(s[1..]);
      }
    }
  }

  lemma TrimKeepsTagFree(s: string)
    requires TagFree(s)
    ensures TagFree(Trim(s))
  {
    var d := DropSpaces(s);
    TagFreeSuffix(s, |s| - |d|);
    TagFreePrefix(d, |DropTrailingSpaces(d)|);
  }

  // ---------------------------------------------------------------------
  // Style blocks

  /** Every style block begins with a tag, "<style...>": where no tag starts, no style block does. */
  lemma NoStyleBlockWithoutTag(u: string)
    requires !TagAt(u)
    ensures StyleMatchLen(u).None?
  {
  }

  /** Without a tag there is no style block to replace. */
  lemma {:induction false} StripStyleFixesTagFree(s: string)
    requires TagFree(s)
    ensures StripStyle(s) == s
    decreases |s|
  {
    if |s| > 0 {
      assert !TagAt(s[0..]) && s[0..] == s;
      NoStyleBlockWithoutTag(s);
      TagFreeSuffix(s, 1);
      StripStyleFixesTagFree(s[1..]);
    }
  }

  // ---------------------------------------------------------------------
  // The pipeline

  /**
    The text sent to the speech model has no white space at its ends, no
    two white-space characters in a row and no white space but ' '
    (services/geminiService.ts:65).
   */
  lemma NormalizeShape(text: string)
    ensures Trimmed(Normalize(text)) && Collapsed(Normalize(text))
  {
    var c := Collapse(StripTags(StripStyle(text)));
    CollapseIsCollapsed(StripTags(StripStyle(text)));
    TrimShape(c);
    var a: nat, b: nat :| a <= b <= |c| && Trim(c) == c[a..b];
    CollapsedSlice(c, a, b);
  }

  /** The text holds no tag, so stripping tags again changes nothing (services/geminiService.ts:64). */
  lemma NormalizeTagFree(text: string)
    ensures TagFree(Normalize(text))
    ensures StripTags(Normalize(text)) == Normalize(text)
  {
    var t := StripTags(StripStyle(text));
    StripTagsIsTagFree(StripStyle(text));
    CollapseKeepsTagFree(t);
    TrimKeepsTagFree(Collapse(t));
    StripTagsFixesTagFree(Normalize(text));
  }

  /** Normalising a normalised text changes nothing. */
  lemma NormalizeIdempotent(text: string)
    ensures Normalize(Normalize(text)) == Normalize(text)
  {
    var n := Normalize(text);
    NormalizeTagFree(text);
    NormalizeShape(text);
    StripStyleFixesTagFree(n);
    CollapseFixesCollapsed(n);
    TrimFixesTrimmed(n);
  }

  /** Input without '<' is only collapsed and trimmed (services/geminiService.ts:63-65). */
  lemma NormalizeWithoutMarkup(text: string)
    requires '<' !in text
    ensures Normalize(text) == Trim(Collapse(text))
    ensures Visible(Normalize(text)) == Visible(text)
  {
    assert TagFree(text);
    StripStyleFixesTagFree(text);
    StripTagsFixesTagFree(text);
    TrimKeepsVisible(Collapse(text));
    CollapseKeepsVisible(text);
  }

  /** A stretch without '<' passes through the style and tag replacements unchanged. */
  lemma StripAppend(a: string, b: string)
    requires '<' !in a
    ensures StripStyle(a + b) == a + StripStyle(b)
    ensures StripTags(a + b) == a + StripTags(b)
  {
    StripStyleAppend(a, b);
    StripTagsAppend(a, b);
  }

  lemma {:induction false} StripStyleAppend(a: string, b: string)
    requires '<' !in a
    ensures StripStyle(a + b) == a + StripStyle(b)
    decreases |a|
  {
    if |a| > 0 {
      var u := a + b;
      assert u[1..] == a[1..] + b && u[0] == a[0] != '<';
      LowerAsciiAngle(u[0]);
      assert StyleMatchLen(u).None?;
      StripStyleAppend(a[1..], b);
    } else {
      assert a + b == b;
    }
  }

  lemma {:induction false} StripTagsAppend(a: string, b: string)
    requires '<' !in a
    ensures StripTags(a + b) == a + StripTags(b)
    decreases |a|
  {
    if |a| > 0 {
      var u := a + b;
      assert u[1..] == a[1..] + b && u[0] == a[0] != '<';
      assert !TagAt(u);
      StripTagsAppend(a[1..], b);
    } else {
      assert a + b == b;
    }
  }

  /** A collapsed stretch ending in a visible character passes through collapsing unchanged. */
  lemma {:induction false} CollapseAppend(a: string, b: string)
    requires Collapsed(a) && (|a| == 0 || !IsJsSpace(a[|a| - 1]))
    ensures Collapse(a + b) == a + Collapse(b)
    decreases |a|
  {
    if |a| == 0 {
      assert a + b == b;
    } else {
      CollapsedSlice(a, 1, |a|);
      assert a[1..|a|] == a[1..];
      CollapseAppend(a[1..], b);
      CollapseAppendStep(a, b);
    }
  }

  /** One step of CollapseAppend: a collapsed head character passes in front of the collapsed rest. */
  lemma CollapseAppendStep(a: string, b: string)
    requires |a| > 0 && Collapsed(a) && !IsJsSpace(a[|a| - 1])
    requires Collapse(a[1..] + b) == a[1..] + Collapse(b)
    ensures Collapse(a + b) == a + Collapse(b)
  {
    var s := a + b;
    assert s[1..] == a[1..] + b && s[0] == a[0];
    if IsJsSpace(a[0]) {
      assert |a| > 1 && !IsJsSpace(a[1]) && a[0] == ' ' by {
        assert 0 < |a| && IsJsSpace(a[0]);
      }
      assert s[1] == a[1];
    }
    CollapseKeepsHead(s);
    HeadThenRest(a, Collapse(b));
  }

  lemma HeadThenRest(a: string, t: string)
    requires |a| > 0
    ensures [a[0]] + (a[1..] + t) == a + t
  {
    assert [a[0]] + a[1..] == a;
  }

  lemma CollapseVisibleHead(s: string)
    requires |s| > 0 && !IsJsSpace(s[0])
    ensures Collapse(s) == [s[0]] + Collapse(s[1..])
  {
  }

  /** A visible character, or a single space before one, passes collapsing as it is. */
  lemma CollapseKeepsHead(s: string)
    requires |s| > 0 && (!IsJsSpace(s[0]) || (s[0] == ' ' && |s| > 1 && !IsJsSpace(s[1])))
    ensures Collapse(s) == [s[0]] + Collapse(s[1..])
  {
    if IsJsSpace(s[0]) {
      CollapseSingleSpace(s);
    }
  }

  lemma CollapseSingleSpace(s: string)
    requires |s| > 1 && s[0] == ' ' && !IsJsSpace(s[1])
    ensures Collapse(s) == " " + Collapse(s[1..])
  {
    assert DropSpaces(s) == DropSpaces(s[1..]) == s[1..];
  }

  /** Where no "<s" or "<S" occurs, no style block can start. */
  lemma {:induction false} StripStyleWithoutOpening(s: string)
    requires forall i :: 0 <= i < |s| - 1 ==> !(s[i] == '<' && LowerAscii(s[i + 1]) == 's')
    ensures StripStyle(s) == s
    decreases |s|
  {
    if |s| > 0 {
      assert !StartsIgnoringCase(s, StyleOpen) by {
        if |s| >= 6 {
          assert !(s[0] == '<' && LowerAscii(s[1]) == 's');
          assert StyleOpen[0] == '<' && StyleOpen[1] == 's';
        }
      }
      StripStyleWithoutOpening(s[1..]);
    }
  }

  /** Only '<' folds to '<'. */
  lemma LowerAsciiAngle(c: char)
    ensures LowerAscii(c) == '<' <==> c == '<'
  {
  }

  lemma IndexOfFinds(u: string, c: char, from: nat, k: nat)
    requires from <= k < |u| && u[k] == c
    requires forall i :: from <= i < k ==> u[i] != c
    ensures IndexOf(u, c, from) == Some(k)
  {
  }

  lemma FindStyleCloseFinds(u: string, from: nat, k: nat)
    requires from <= k <= |u| && ClosesAt(u, k)
    requires forall i :: from <= i < k ==> !ClosesAt(u, i)
    ensures FindStyleClose(u, from) == Some(k)
  {
  }

  lemma StartsIgnoringCaseAppend(a: string, b: string, pattern: string)
    requires StartsIgnoringCase(a, pattern)
    ensures StartsIgnoringCase(a + b, pattern)
  {
    assert forall i :: 0 <= i < |pattern| ==> (a + b)[i] == a[i];
  }

  /** Whether a text starts with a pattern depends only on its first |pattern| characters. */
  lemma StartsIgnoringCaseOfPrefix(a: string, b: string, pattern: string)
    requires |a| >= |pattern|
    ensures StartsIgnoringCase(a + b, pattern) <==> StartsIgnoringCase(a, pattern)
  {
    assert forall i :: 0 <= i < |pattern| ==> (a + b)[i] == a[i];
  }

  /**
    A style block at the front of `u` ends at the first closing tag after
    the first '>': the shortest match, as the lazy `*?` demands.
   */
  lemma StyleMatchLenFinds(u: string, j: nat, k: nat)
    requires StartsIgnoringCase(u, StyleOpen)
    requires 6 <= j < k <= |u| && u[j] == '>' && forall i :: 6 <= i < j ==> u[i] != '>'
    requires ClosesAt(u, k) && forall i :: j < i < k ==> !ClosesAt(u, i)
    ensures StyleMatchLen(u) == Some(k + 8)
  {
    IndexOfFinds(u, '>', 6, j);
    FindStyleCloseFinds(u, j + 1, k);
    StyleMatchLenOf(u, j, k);
  }

  lemma StyleMatchLenOf(u: string, j: nat, k: nat)
    requires StartsIgnoringCase(u, StyleOpen)
    requires IndexOf(u, '>', 6) == Some(j) && FindStyleClose(u, j + 1) == Some(k)
    ensures StyleMatchLen(u) == Some(k + 8)
  {
    StyleMatchLenSome(u, j, k);
    StyleMatchLenValue(u, j, k);
  }

  lemma StyleMatchLenSome(u: string, j: nat, k: nat)
    requires StartsIgnoringCase(u, StyleOpen)
    requires IndexOf(u, '>', 6) == Some(j) && FindStyleClose(u, j + 1) == Some(k)
    ensures StyleMatchLen(u).Some?
  {
  }

  lemma StyleMatchLenValue(u: string, j: nat, k: nat)
    requires StartsIgnoringCase(u, StyleOpen)
    requires IndexOf(u, '>', 6) == Some(j) && FindStyleClose(u, j + 1) == Some(k)
    requires StyleMatchLen(u).Some?
    ensures StyleMatchLen(u).value == k + 8
  {
  }

  /**
    A style block, tags in any letter case, is replaced as a whole by the
    notice, provided its style sheet holds no earlier closing tag
    (services/geminiService.ts:63).
   */
  lemma StyleBlockReplaced(open: string, attributes: string, css: string, close: string, rest: string)
    requires |open| == |StyleOpen| && StartsIgnoringCase(open, StyleOpen)
    requires |close| == |StyleClose| && StartsIgnoringCase(close, StyleClose)
    requires '>' !in attributes
    requires forall i :: 0 <= i < |css| ==> !StartsIgnoringCase((css + close)[i..], StyleClose)
    ensures StripStyle((open + attributes + ">") + (css + close) + rest) == StylingNotice + StripStyle(rest)
  {
    var front, sheet := open + attributes + ">", css + close;
    StyleFront(open, attributes, sheet, rest);
    assert sheet[|css|..] == close;
    BlockLength(front, sheet, rest, |css|);
    StripStyleBlock(front, sheet, rest);
  }

  /** A style block matched whole at the front becomes the notice. */
  lemma StripStyleBlock(front: string, sheet: string, rest: string)
    requires StyleMatchLen(front + sheet + rest) == Some(|front| + |sheet|)
    ensures StripStyle(front + sheet + rest) == StylingNotice + StripStyle(rest)
  {
    StripStyleAtBlock(front + sheet + rest, |front| + |sheet|);
    AfterBlock(front, sheet, rest);
  }

  /** "<style", attributes without '>', then '>': the first '>' after the opening is the one closing it. */
  lemma StyleFront(open: string, attributes: string, sheet: string, rest: string)
    requires |open| == |StyleOpen| && StartsIgnoringCase(open, StyleOpen)
    requires '>' !in attributes
    ensures var front := open + attributes + ">";
      && StartsIgnoringCase(front + sheet + rest, StyleOpen)
      && front[|front| - 1] == '>' && forall i :: 6 <= i < |front| - 1 ==> front[i] != '>'
  {
    var front := open + attributes + ">";
    StyleOpening(open, attributes + ">" + sheet + rest);
    assert open + (attributes + ">" + sheet + rest) == front + sheet + rest;
    assert forall i :: 6 <= i < |front| - 1 ==> front[i] == attributes[i - 6];
  }

  /**
    An opening tag up to its first '>', then a style sheet whose first
    closing tag is at `c`: the block ends just after that closing tag.
   */
  lemma BlockLength(front: string, sheet: string, rest: string, c: nat)
    requires |front| >= 7 && StartsIgnoringCase(front + sheet + rest, StyleOpen)
    requires front[|front| - 1] == '>' && forall i :: 6 <= i < |front| - 1 ==> front[i] != '>'
    requires c + |StyleClose| == |sheet| && StartsIgnoringCase(sheet[c..], StyleClose)
    requires forall i :: 0 <= i < c ==> !StartsIgnoringCase(sheet[i..], StyleClose)
    ensures StyleMatchLen(front + sheet + rest) == Some(|front| + |sheet|)
  {
    FrontFindsAngle(front, sheet, rest);
    SheetFindsClose(front, sheet, rest, c);
    StyleMatchLenOf(front + sheet + rest, |front| - 1, |front| + c);
  }

  /** The first '>' after the opening is the last character of the opening tag. */
  lemma FrontFindsAngle(front: string, sheet: string, rest: string)
    requires |front| >= 7 && front[|front| - 1] == '>' && forall i :: 6 <= i < |front| - 1 ==> front[i] != '>'
    ensures IndexOf(front + sheet + rest, '>', 6) == Some(|front| - 1)
  {
    var u := front + sheet + rest;
    assert u[|front| - 1] == front[|front| - 1];
    assert forall i :: 6 <= i < |front| - 1 ==> u[i] == front[i];
    IndexOfFinds(u, '>', 6, |front| - 1);
  }

  /** After the opening tag, the first closing tag is the sheet's first. */
  lemma SheetFindsClose(front: string, sheet: string, rest: string, c: nat)
    requires c + |StyleClose| == |sheet| && StartsIgnoringCase(sheet[c..], StyleClose)
    requires forall i :: 0 <= i < c ==> !StartsIgnoringCase(sheet[i..], StyleClose)
    ensures FindStyleClose(front + sheet + rest, |front|) == Some(|front| + c)
  {
    SheetShape(front, sheet, rest, c);
    FindStyleCloseFinds(front + sheet + rest, |front|, |front| + c);
  }

  lemma SheetShape(front: string, sheet: string, rest: string, c: nat)
    requires c + |StyleClose| == |sheet| && StartsIgnoringCase(sheet[c..], StyleClose)
    requires forall i :: 0 <= i < c ==> !StartsIgnoringCase(sheet[i..], StyleClose)
    ensures ClosesAt(front + sheet + rest, |front| + c)
    ensures forall i :: |front| <= i < |front| + c ==> !ClosesAt(front + sheet + rest, i)
  {
    var u := front + sheet + rest;
    forall i | |front| <= i < |front| + c
      ensures !ClosesAt(u, i)
    {
      ClosesInSheet(front, sheet, rest, i - |front|);
    }
    ClosesInSheet(front, sheet, rest, c);
  }

  lemma AfterBlock(front: string, sheet: string, rest: string)
    ensures (front + sheet + rest)[|front| + |sheet|..] == rest
  {
  }

  /** Inside the style sheet, a closing tag is found exactly where the sheet itself has one. */
  lemma ClosesInSheet(front: string, sheet: string, rest: string, m: nat)
    requires m + |StyleClose| <= |sheet|
    ensures ClosesAt(front + sheet + rest, |front| + m) <==> StartsIgnoringCase(sheet[m..], StyleClose)
  {
    assert (front + sheet + rest)[|front| + m..] == sheet[m..] + rest;
    StartsIgnoringCaseOfPrefix(sheet[m..], rest, StyleClose);
  }

  /** A style block of length `n` at the front becomes the notice. */
  lemma StripStyleAtBlock(u: string, n: nat)
    requires StyleMatchLen(u) == Some(n)
    ensures StripStyle(u) == StylingNotice + StripStyle(u[n..])
  {
  }

  /** A style sheet without '<' holds no closing tag. */
  lemma PlainSheet(css: string, close: string)
    requires '<' !in css
    ensures forall i :: 0 <= i < |css| ==> !StartsIgnoringCase((css + close)[i..], StyleClose)
  {
    forall i | 0 <= i < |css|
      ensures !StartsIgnoringCase((css + close)[i..], StyleClose)
    {
      assert (css + close)[i..][0] == css[i];
      LowerAsciiAngle(css[i]);
    }
  }

  lemma StyleOpening(open: string, tail: string)
    requires |open| == |StyleOpen| && StartsIgnoringCase(open, StyleOpen)
    ensures StartsIgnoringCase(open + tail, StyleOpen)
  {
    StartsIgnoringCaseAppend(open, tail, StyleOpen);
  }

  lemma ExampleStyle()
    ensures StripStyle("<STYLE>p{}</style><p>Hi</p>") == StylingNotice + "<p>Hi</p>"
  {
    var body := "<p>Hi</p>";
    ExampleStyleTags();
    assert "<STYLE>p{}</style><p>Hi</p>" == ("<STYLE" + "" + ">") + ("p{}" + "</style>") + body;
    PlainSheet("p{}", "</style>");
    StyleBlockReplaced("<STYLE", "", "p{}", "</style>", body);
    ExampleParagraph();
  }

  lemma ExampleStyleTags()
    ensures StartsIgnoringCase("<STYLE", StyleOpen)
    ensures StartsIgnoringCase("</style>", StyleClose)
  {
  }

  lemma ExampleParagraph()
    ensures StripStyle("<p>Hi</p>") == "<p>Hi</p>"
  {
    StripStyleWithoutOpening("<p>Hi</p>");
  }

  /** A tag is replaced by one space (services/geminiService.ts:64). */
  lemma TagReplaced(name: string, rest: string)
    requires |name| > 0 && '>' !in name
    ensures StripTags("<" + name + ">" + rest) == " " + StripTags(rest)
  {
    var u := "<" + name + ">" + rest;
    var j := 1 + |name|;
    assert u[1] == name[0] && u[j] == '>';
    assert forall i :: 1 <= i < j ==> u[i] == name[i - 1];
    assert u[2..][j - 2] == '>';
    IndexOfFinds(u, '>', 2, j);
    assert u[j + 1..] == rest;
  }

  lemma {:induction false} DropSpacesAppend(spaces: string, b: string)
    requires forall i :: 0 <= i < |spaces| ==> IsJsSpace(spaces[i])
    requires b == [] || !IsJsSpace(b[0])
    ensures DropSpaces(spaces + b) == b
    decreases |spaces|
  {
    if |spaces| > 0 {
      assert (spaces + b)[1..] == spaces[1..] + b;
      DropSpacesAppend(spaces[1..], b);
    } else {
      assert spaces + b == b;
    }
  }

  lemma {:induction false} DropTrailingSpacesAppend(a: string, spaces: string)
    requires forall i :: 0 <= i < |spaces| ==> IsJsSpace(spaces[i])
    requires a == [] || !IsJsSpace(a[|a| - 1])
    ensures DropTrailingSpaces(a + spaces) == a
    decreases |spaces|
  {
    if |spaces| > 0 {
      assert (a + spaces)[..|a + spaces| - 1] == a + spaces[..|spaces| - 1];
      DropTrailingSpacesAppend(a, spaces[..|spaces| - 1]);
    } else {
      assert a + spaces == a;
    }
  }

  /** Trimming removes exactly the white space around the text, and nothing inside it. */
  lemma TrimSurrounded(leading: string, middle: string, trailing: string)
    requires forall i :: 0 <= i < |leading| ==> IsJsSpace(leading[i])
    requires forall i :: 0 <= i < |trailing| ==> IsJsSpace(trailing[i])
    requires Trimmed(middle)
    ensures Trim(leading + middle + trailing) == middle
  {
    if |middle| == 0 {
      assert leading + middle + trailing == (leading + trailing) + [];
      DropSpacesAppend(leading + trailing, []);
      DropTrailingSpacesAppend([], []);
    } else {
      assert leading + middle + trailing == leading + (middle + trailing);
      DropSpacesAppend(leading, middle + trailing);
      DropTrailingSpacesAppend(middle, trailing);
    }
  }
}
