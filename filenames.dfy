/**
 * `sanitizeFileName` (server.js): turns a video title into the base name of
 * the downloaded file.
 */
module FileNames {
  import opened Opt
  import Text

  const MAX_LENGTH: nat := 100
  const DEFAULT_NAME := "video"

  /** The characters of the class `[<>:"/\\|?*\x00-\x1F]`. */
  predicate IsForbidden(c: char) {
    c in "<>:\"/\\|?*" || c < '\U{20}'
  }

  predicate NoForbidden(s: string) {
    forall i :: 0 <= i < |s| ==> !IsForbidden(s[i])
  }

  predicate NoDoubleWhitespace(s: string) {
    forall i :: 0 <= i < |s| - 1 ==> !(Text.IsWhitespace(s[i]) && Text.IsWhitespace(s[i + 1]))
  }

  /** `.replace(/[<>:"/\\|?*\x00-\x1F]/g, '')`. */
  function StripForbidden(s: string): (r: string)
    ensures NoForbidden(r)
    ensures forall i :: 0 <= i < |r| ==> r[i] in s
    ensures NoForbidden(s) ==> r == s
  {
    if s == [] then []
    else
      var rest := StripForbidden(s[1..]);
      assert forall c :: c in s[1..] ==> c in s;
      if IsForbidden(s[0]) then rest
      else
        assert NoForbidden(s) ==> NoForbidden(s[1..]);
        [s[0]] + rest
  }

  /**
   * Stripping works character by character: a string is stripped piece by
   * piece, and a single character is dropped exactly when it is forbidden.
   * So every permitted character is kept, in its order.
   */
  lemma {:induction false} StripForbiddenCharwise(a: string, b: string, c: char)
    ensures StripForbidden(a + b) == StripForbidden(a) + StripForbidden(b)
    ensures StripForbidden([c]) == if IsForbidden(c) then [] else [c]
    decreases |a|
  {
    assert [c][1..] == [];
    if a == [] {
      assert a + b == b;
    } else {
      assert (a + b)[0] == a[0] && (a + b)[1..] == a[1..] + b;
      StripForbiddenCharwise(a[1..], b, c);
    }
  }

  /** `s` without its white-space characters: the text that the white-space steps must keep. */
  function DropWhitespace(s: string): string {
    if s == [] then []
    else if Text.IsWhitespace(s[0]) then DropWhitespace(s[1..])
    else [s[0]] + DropWhitespace(s[1..])
  }

  lemma {:induction false} DropWhitespaceConcat(a: string, b: string)
    ensures DropWhitespace(a + b) == DropWhitespace(a) + DropWhitespace(b)
    decreases |a|
  {
    if a == [] {
      assert a + b == b;
    } else {
      assert (a + b)[0] == a[0] && (a + b)[1..] == a[1..] + b;
      DropWhitespaceConcat(a[1..], b);
    }
  }

  lemma {:induction false} DropAllWhitespace(w: string)
    requires forall i :: 0 <= i < |w| ==> Text.IsWhitespace(w[i])
    ensures DropWhitespace(w) == []
    decreases |w|
  {
    if w != [] {
      DropAllWhitespace(w[1..]);
    }
  }

  /** Dropping the white space of a prefix and a suffix that are all white space keeps the text. */
  lemma DropAroundPiece(s: string, lo: nat, hi: nat)
    requires lo <= hi <= |s|
    requires forall i :: 0 <= i < lo ==> Text.IsWhitespace(s[i])
    requires forall i :: hi <= i < |s| ==> Text.IsWhitespace(s[i])
    ensures DropWhitespace(s[lo..hi]) == DropWhitespace(s)
  {
    var front, middle, back := s[..lo], s[lo..hi], s[hi..];
    assert DropWhitespace(front) == [] by {
      DropAllWhitespace(front);
    }
    assert DropWhitespace(back) == [] by {
      forall i | 0 <= i < |back| ensures Text.IsWhitespace(back[i]) {
        assert back[i] == s[hi + i];
      }
      DropAllWhitespace(back);
    }
    assert s == front + middle + back;
    DropOfThree(front, middle, back);
  }

  lemma DropOfThree(front: string, middle: string, back: string)
    requires DropWhitespace(front) == [] && DropWhitespace(back) == []
    ensures DropWhitespace(front + middle + back) == DropWhitespace(middle)
  {
    DropWhitespaceConcat(front + middle, back);
    DropWhitespaceConcat(front, middle);
    EmptyConcat(DropWhitespace(middle));
  }

  /** Prefixing one character keeps a string free of doubled white space if it does not start a pair. */
  lemma ConsNoDouble(c: char, t: string)
    requires NoDoubleWhitespace(t)
    requires Text.IsWhitespace(c) ==> t == [] || !Text.IsWhitespace(t[0])
    ensures NoDoubleWhitespace([c] + t)
  {
    var r := [c] + t;
    forall i | 0 <= i < |r| - 1 ensures !(Text.IsWhitespace(r[i]) && Text.IsWhitespace(r[i + 1])) {
      assert r[i + 1] == t[i];
      if i > 0 {
        assert r[i] == t[i - 1];
      }
    }
  }

  lemma ConsNoForbidden(c: char, t: string)
    ensures NoForbidden(t) && !IsForbidden(c) ==> NoForbidden([c] + t)
  {
    var r := [c] + t;
    if NoForbidden(t) && !IsForbidden(c) {
      forall i | 0 <= i < |r| ensures !IsForbidden(r[i]) {
        if i > 0 {
          assert r[i] == t[i - 1];
        }
      }
    }
  }

  /** `.replace(/\s+/g, ' ')`: every run of white space becomes one space. */
  function CollapseWhitespace(s: string): (r: string)
    ensures NoDoubleWhitespace(r)
    ensures NoForbidden(s) ==> NoForbidden(r)
    ensures r == [] <==> s == []
    ensures s != [] && !Text.IsWhitespace(s[0]) ==> r[0] == s[0]
    decreases |s|
  {
    if s == [] then []
    else if Text.IsWhitespace(s[0]) then
      var rest := Text.TrimStart(s[1..]);
      RestOfRunIsClean(s);
      var tail := CollapseWhitespace(rest);
      SpaceBeforeTail(tail);
      [' '] + tail
    else
      SliceKeepsClean(s, 1, |s|);
      var tail := CollapseWhitespace(s[1..]);
      ConsNoDouble(s[0], tail);
      ConsNoForbidden(s[0], tail);
      [s[0]] + tail
  }

  /** What follows a run of white space keeps the string's freedom from forbidden characters. */
  lemma RestOfRunIsClean(s: string)
    requires s != []
    ensures NoForbidden(s) ==> NoForbidden(Text.TrimStart(s[1..]))
  {
    var rest := Text.TrimStart(s[1..]);
    SliceKeepsClean(s, |s| - |rest|, |s|);
    assert rest == s[|s| - |rest|..|s|];
  }

  /** One space in front of a collapsed tail that starts with no white space. */
  lemma SpaceBeforeTail(tail: string)
    requires NoDoubleWhitespace(tail)
    requires tail == [] || !Text.IsWhitespace(tail[0])
    ensures NoDoubleWhitespace([' '] + tail)
    ensures NoForbidden(tail) ==> NoForbidden([' '] + tail)
  {
    ConsNoDouble(' ', tail);
    ConsNoForbidden(' ', tail);
  }

  /** Every white-space character of `s` is a plain space. */
  predicate SpacesOnly(s: string) {
    forall i :: 0 <= i < |s| && Text.IsWhitespace(s[i]) ==> s[i] == ' '
  }

  /**
   * Collapsing keeps the text: the input and the result hold the same
   * characters other than white space, in the same order.
   */
  lemma {:induction false} CollapseKeepsText(s: string)
    ensures DropWhitespace(CollapseWhitespace(s)) == DropWhitespace(s)
    decreases |s|
  {
    if s != [] {
      DropAt(s);
      if Text.IsWhitespace(s[0]) {
        var rest := Text.TrimStart(s[1..]);
        CollapseKeepsText(rest);
        var tail := CollapseWhitespace(rest);
        CollapseAtSpace(s);
        DropCons(' ', tail);
        DropTrimStart(s[1..]);
      } else {
        CollapseKeepsText(s[1..]);
        var tail := CollapseWhitespace(s[1..]);
        CollapseAtWord(s);
        DropCons(s[0], tail);
      }
    }
  }

  /** Trimming the front drops only white space. */
  lemma DropTrimStart(t: string)
    ensures DropWhitespace(Text.TrimStart(t)) == DropWhitespace(t)
  {
    var r := Text.TrimStart(t);
    DropAroundPiece(t, |t| - |r|, |t|);
    assert t[|t| - |r|..|t|] == r;
  }

  lemma EmptyConcat(d: string)
    ensures [] + d == d && d + [] == d
  {
  }

  lemma DropAt(s: string)
    requires s != []
    ensures DropWhitespace(s) == (if Text.IsWhitespace(s[0]) then [] else [s[0]]) + DropWhitespace(s[1..])
  {
  }

  lemma DropCons(c: char, t: string)
    ensures DropWhitespace([c] + t) == (if Text.IsWhitespace(c) then [] else [c]) + DropWhitespace(t)
  {
    assert ([c] + t)[0] == c && ([c] + t)[1..] == t;
  }

  /** The only white space collapsing leaves is the plain space. */
  lemma {:induction false} CollapseLeavesSpaces(s: string)
    ensures SpacesOnly(CollapseWhitespace(s))
    decreases |s|
  {
    if s != [] {
      if Text.IsWhitespace(s[0]) {
        var rest := Text.TrimStart(s[1..]);
        CollapseLeavesSpaces(rest);
        var tail := CollapseWhitespace(rest);
        CollapseAtSpace(s);
        ConsSpacesOnly(' ', tail);
      } else {
        CollapseLeavesSpaces(s[1..]);
        var tail := CollapseWhitespace(s[1..]);
        CollapseAtWord(s);
        ConsSpacesOnly(s[0], tail);
      }
    }
  }

  lemma ConsSpacesOnly(c: char, t: string)
    requires SpacesOnly(t)
    requires Text.IsWhitespace(c) ==> c == ' '
    ensures SpacesOnly([c] + t)
  {
    var r := [c] + t;
    forall i | 0 <= i < |r| && Text.IsWhitespace(r[i]) ensures r[i] == ' ' {
      if i > 0 { assert r[i] == t[i - 1]; }
    }
  }

  /** Trimming the front of `a + b` stays inside `a` when `a` ends with a character that is not white space. */
  lemma {:induction false} TrimStartConcat(a: string, b: string)
    requires a != [] && !Text.IsWhitespace(a[|a| - 1])
    ensures Text.TrimStart(a + b) == Text.TrimStart(a) + b
    decreases |a|
  {
    assert (a + b)[0] == a[0];
    if Text.IsWhitespace(a[0]) {
      assert (a + b)[1..] == a[1..] + b;
      TrimStartConcat(a[1..], b);
    }
  }

  /** A whole run of white space, however long, becomes exactly one space. */
  lemma CollapseRun(w: string, b: string)
    requires w != [] && forall i :: 0 <= i < |w| ==> Text.IsWhitespace(w[i])
    requires b == [] || !Text.IsWhitespace(b[0])
    ensures CollapseWhitespace(w + b) == [' '] + CollapseWhitespace(b)
  {
    var x := w + b;
    assert x[0] == w[0];
    assert Text.TrimStart(x[1..]) == b by {
      assert x[1..] == w[1..] + b;
      assert forall i :: 0 <= i < |w[1..]| ==> Text.IsWhitespace(w[1..][i]);
      Text.TrimStartRun(w[1..], b);
    }
    CollapseAtSpace(x);
  }

  /**
   * Collapsing works run by run: cut after a character that is not white
   * space, the two sides collapse on their own.
   */
  lemma {:induction false} CollapseSplit(a: string, b: string)
    requires a == [] || !Text.IsWhitespace(a[|a| - 1])
    ensures CollapseWhitespace(a + b) == CollapseWhitespace(a) + CollapseWhitespace(b)
    decreases |a|
  {
    var x := a + b;
    if a == [] {
      assert x == b;
    } else {
      assert x[0] == a[0] && x[1..] == a[1..] + b;
      var cb := CollapseWhitespace(b);
      if Text.IsWhitespace(a[0]) {
        var t := Text.TrimStart(a[1..]);
        assert Text.TrimStart(x[1..]) == t + b && t != [] && t[|t| - 1] == a[|a| - 1] by {
          TrimStartConcat(a[1..], b);
        }
        CollapseSplit(t, b);
        CollapseAtSpace(x);
        CollapseAtSpace(a);
        ConsAssoc(' ', CollapseWhitespace(t), cb);
      } else {
        CollapseSplit(a[1..], b);
        CollapseAtWord(x);
        CollapseAtWord(a);
        ConsAssoc(a[0], CollapseWhitespace(a[1..]), cb);
      }
    }
  }

  /** The step of the collapse at a white-space character: the run it starts becomes one space. */
  lemma CollapseAtSpace(x: string)
    requires x != [] && Text.IsWhitespace(x[0])
    ensures CollapseWhitespace(x) == [' '] + CollapseWhitespace(Text.TrimStart(x[1..]))
  {
  }

  /** The step of the collapse at any other character: it is kept. */
  lemma CollapseAtWord(x: string)
    requires x != [] && !Text.IsWhitespace(x[0])
    ensures CollapseWhitespace(x) == [x[0]] + CollapseWhitespace(x[1..])
  {
  }

  lemma ConsAssoc(c: char, p: string, q: string)
    ensures [c] + (p + q) == ([c] + p) + q
  {
  }

  /** A piece of a string keeps the string's freedom from forbidden characters and doubled white space. */
  lemma SliceKeepsClean(s: string, lo: nat, hi: nat)
    requires lo <= hi <= |s|
    ensures NoForbidden(s) ==> NoForbidden(s[lo..hi])
    ensures NoDoubleWhitespace(s) ==> NoDoubleWhitespace(s[lo..hi])
    ensures SpacesOnly(s) ==> SpacesOnly(s[lo..hi])
  {
    var t := s[lo..hi];
    if SpacesOnly(s) {
      forall i | 0 <= i < |t| && Text.IsWhitespace(t[i]) ensures t[i] == ' ' {
        assert t[i] == s[lo + i];
      }
    }
    if NoDoubleWhitespace(s) {
      forall i | 0 <= i < |t| - 1 ensures !(Text.IsWhitespace(t[i]) && Text.IsWhitespace(t[i + 1])) {
        assert t[i] == s[lo + i] && t[i + 1] == s[lo + i + 1];
      }
    }
    if NoForbidden(s) {
      forall i | 0 <= i < |t| ensures !IsForbidden(t[i]) {
        assert t[i] == s[lo + i];
      }
    }
  }

  lemma TrimKeepsClean(s: string)
    ensures NoForbidden(s) ==> NoForbidden(Text.Trim(s))
    ensures NoDoubleWhitespace(s) ==> NoDoubleWhitespace(Text.Trim(s))
    ensures SpacesOnly(s) ==> SpacesOnly(Text.Trim(s))
  {
    SliceKeepsClean(s, Text.TrimOffset(s), Text.TrimOffset(s) + |Text.Trim(s)|);
  }

  /** Strip, collapse, trim and cut to 100 characters; empty only if nothing usable was left. */
  function Clean(base: string): (r: string)
    ensures |r| <= MAX_LENGTH
    ensures NoForbidden(r) && NoDoubleWhitespace(r)
    ensures r == [] || !Text.IsWhitespace(r[0])
    ensures |r| < MAX_LENGTH ==> r == [] || !Text.IsWhitespace(r[|r| - 1])
  {
    var collapsed := CollapseWhitespace(StripForbidden(base));
    var trimmed := Text.Trim(collapsed);
    TrimKeepsClean(collapsed);
    var capped := if |trimmed| <= MAX_LENGTH then trimmed else trimmed[..MAX_LENGTH];
    SliceKeepsClean(trimmed, 0, |capped|);
    assert capped == trimmed[0..|capped|];
    capped
  }

  /**
   * What cleaning keeps of the text: the permitted characters other than
   * white space, in their order, cut short only by the 100-character cap;
   * the white space left between them is plain spaces. Nothing is left
   * exactly when the text had nothing but white space and forbidden characters.
   */
  lemma CleanKeepsText(base: string)
    ensures Text.StartsWith(DropWhitespace(StripForbidden(base)), DropWhitespace(Clean(base)))
    ensures |Clean(base)| < MAX_LENGTH ==> DropWhitespace(Clean(base)) == DropWhitespace(StripForbidden(base))
    ensures Clean(base) == [] <==> DropWhitespace(StripForbidden(base)) == []
    ensures SpacesOnly(Clean(base))
  {
    var trimmed := Text.Trim(CollapseWhitespace(StripForbidden(base)));
    CollapseThenTrimKeepsText(StripForbidden(base));
    var r := Clean(base);
    assert r == if |trimmed| <= MAX_LENGTH then trimmed else trimmed[..MAX_LENGTH];
    CapKeepsText(trimmed, r);
  }

  /** Collapsing and trimming keep the text and leave plain spaces only. */
  lemma CollapseThenTrimKeepsText(stripped: string)
    ensures var trimmed := Text.Trim(CollapseWhitespace(stripped));
      DropWhitespace(trimmed) == DropWhitespace(stripped) && SpacesOnly(trimmed)
  {
    var collapsed := CollapseWhitespace(stripped);
    CollapseKeepsText(stripped);
    CollapseLeavesSpaces(stripped);
    TrimKeepsClean(collapsed);
    DropTrim(collapsed);
  }

  /** Trimming drops only white space. */
  lemma DropTrim(t: string)
    ensures DropWhitespace(Text.Trim(t)) == DropWhitespace(t)
  {
    var r := Text.Trim(t);
    var lo := Text.TrimOffset(t);
    DropAroundPiece(t, lo, lo + |r|);
    assert t[lo..lo + |r|] == r;
  }

  /** The 100-character cut keeps the start of the text, and all of it when it is shorter. */
  lemma CapKeepsText(trimmed: string, r: string)
    requires trimmed == [] || !Text.IsWhitespace(trimmed[0])
    requires r == if |trimmed| <= MAX_LENGTH then trimmed else trimmed[..MAX_LENGTH]
    ensures Text.StartsWith(DropWhitespace(trimmed), DropWhitespace(r))
    ensures |r| < MAX_LENGTH ==> DropWhitespace(r) == DropWhitespace(trimmed)
    ensures r == [] <==> DropWhitespace(trimmed) == []
    ensures SpacesOnly(trimmed) ==> SpacesOnly(r)
  {
    assert trimmed == r + trimmed[|r|..];
    DropWhitespaceConcat(r, trimmed[|r|..]);
    SliceKeepsClean(trimmed, 0, |r|);
    assert r == trimmed[0..|r|];
    if trimmed != [] {
      assert DropWhitespace(trimmed)[0] == trimmed[0];
    }
  }

  /** `name || 'video'`: a missing or empty title counts as `video`. */
  function Title(name: Option<string>): (t: string)
    ensures t != []
    ensures name.Some? && name.value != "" ==> t == name.value
  {
    if name.None? || name.value == "" then DEFAULT_NAME else name.value
  }

  /**
   * `sanitizeFileName`: the title cleaned, or `video` when cleaning left
   * nothing, which happens exactly when the title had nothing but white space
   * and forbidden characters. The result is never empty, at most 100
   * characters long, free of forbidden characters, has single plain spaces
   * only and never starts with white space; it ends with white space only
   * when the 100-character cut fell just after a space.
   */
  function SanitizeFileName(name: Option<string>): (r: string)
    ensures DropWhitespace(StripForbidden(Title(name))) != [] ==> r == Clean(Title(name))
    ensures DropWhitespace(StripForbidden(Title(name))) == [] ==> r == DEFAULT_NAME
    ensures r != [] && |r| <= MAX_LENGTH
    ensures NoForbidden(r)
    ensures NoDoubleWhitespace(r)
    ensures SpacesOnly(r)
    ensures !Text.IsWhitespace(r[0])
    ensures |r| < MAX_LENGTH ==> !Text.IsWhitespace(r[|r| - 1])
  {
    var title := Title(name);
    var cleaned := Clean(title);
    assert (cleaned == [] <==> DropWhitespace(StripForbidden(title)) == []) && SpacesOnly(cleaned) by {
      CleanKeepsText(title);
    }
    if cleaned == [] then
      DefaultNameIsClean();
      DEFAULT_NAME
    else
      cleaned
  }

  /**
   * A name that is already clean: 1 to 100 characters, nothing forbidden,
   * plain spaces only, single, and none at either end.
   */
  predicate IsCleanName(s: string) {
    0 < |s| <= MAX_LENGTH && NoForbidden(s) && NoDoubleWhitespace(s)
    && SpacesOnly(s)
    && !Text.IsWhitespace(s[0]) && !Text.IsWhitespace(s[|s| - 1])
  }

  lemma {:induction false} CollapseKeepsSingleSpaces(s: string)
    requires NoDoubleWhitespace(s)
    requires SpacesOnly(s)
    ensures CollapseWhitespace(s) == s
  {
    if s != [] {
      var tail := s[1..];
      assert NoDoubleWhitespace(tail) by {
        forall i | 0 <= i < |tail| - 1 ensures !(Text.IsWhitespace(tail[i]) && Text.IsWhitespace(tail[i + 1])) {
          assert tail[i] == s[i + 1] && tail[i + 1] == s[i + 2];
        }
      }
      assert SpacesOnly(tail) by {
        forall i | 0 <= i < |tail| && Text.IsWhitespace(tail[i]) ensures tail[i] == ' ' {
          assert tail[i] == s[i + 1];
        }
      }
      CollapseKeepsSingleSpaces(tail);
      if Text.IsWhitespace(s[0]) {
        assert tail == [] || !Text.IsWhitespace(tail[0]);
        assert Text.TrimStart(tail) == tail;
      }
      assert s == [s[0]] + tail;
    }
  }

  /** A title that is already a clean name is used unchanged. */
  lemma CleanNameUnchanged(s: string)
    requires IsCleanName(s)
    ensures Clean(s) == s
    ensures SanitizeFileName(Some(s)) == s
  {
    CollapseKeepsSingleSpaces(s);
    assert StripForbidden(s) == s;
    assert Text.TrimStart(s) == s;
    assert Text.TrimEnd(s) == s;
  }

  /**
   * The cut to 100 characters comes after the trim, so a cleaned name of
   * exactly 100 characters can end in the space that followed its 99th one.
   */
  lemma CutCanEndInSpace(s: string)
    requires |s| > MAX_LENGTH && s[MAX_LENGTH - 1] == ' '
    requires NoForbidden(s) && NoDoubleWhitespace(s) && SpacesOnly(s)
    requires !Text.IsWhitespace(s[0]) && !Text.IsWhitespace(s[|s| - 1])
    ensures Clean(s) == s[..MAX_LENGTH]
    ensures Text.IsWhitespace(Clean(s)[MAX_LENGTH - 1])
  {
    CollapseKeepsSingleSpaces(s);
    assert StripForbidden(s) == s;
    assert Text.TrimStart(s) == s;
    assert Text.TrimEnd(s) == s;
  }

  lemma DefaultNameIsClean()
    ensures IsCleanName(DEFAULT_NAME)
  {
    forall i | 0 <= i < |DEFAULT_NAME| ensures !IsForbidden(DEFAULT_NAME[i]) && !Text.IsWhitespace(DEFAULT_NAME[i]) {
      assert 'a' <= DEFAULT_NAME[i] <= 'z';
    }
  }

  /** A missing or empty title gives `video`. */
  lemma MissingTitleGivesVideo(name: Option<string>)
    requires name.None? || name.value == ""
    ensures SanitizeFileName(name) == DEFAULT_NAME
  {
    DefaultNameIsClean();
    CleanNameUnchanged(DEFAULT_NAME);
  }
}
