/**
 * The text cleaner of the social-post classifier (social_ml/src/preprocess.py,
 * `clean_text`). It is a chain of regular-expression substitutions followed by
 * a token filter; each substitution is a function here, scanning left to right
 * as Python's `re.sub` does. The emoji remover and the stopword list are
 * parameters.
 */
module Preprocess {
  import opened Sequences

  /** The argument of `clean_text`: a string, or any other Python value. */
  datatype Input = Text(s: string) | NonText

  /** Python's `str.isspace`, which is also what `\s` and `str.split()` use. */
  predicate IsSpace(c: char) {
    var n := c as int;
    (0x09 <= n <= 0x0D) || (0x1C <= n <= 0x20) || n == 0x85 || n == 0xA0 || n == 0x1680
    || (0x2000 <= n <= 0x200A) || n == 0x2028 || n == 0x2029 || n == 0x202F
    || n == 0x205F || n == 0x3000
  }

  predicate NotSpace(c: char) {
    !IsSpace(c)
  }

  /** The characters `[a-z0-9]`. */
  predicate IsLowerAlnum(c: char) {
    'a' <= c <= 'z' || '0' <= c <= '9'
  }

  /** The word characters `\w`, over ASCII. */
  predicate IsWordChar(c: char) {
    'a' <= c <= 'z' || 'A' <= c <= 'Z' || '0' <= c <= '9' || c == '_'
  }

  predicate IsUpper(c: char) {
    'A' <= c <= 'Z'
  }

  function LowerChar(c: char): (d: char)
    ensures !IsUpper(d)
    ensures !IsUpper(c) ==> d == c
    ensures IsUpper(c) ==> d as int == c as int + 32
  {
    if IsUpper(c) then (c as int + 32) as char else c
  }

  /** `str.lower`, over ASCII. */
  function ToLower(s: string): (r: string)
    ensures |r| == |s|
    ensures forall i :: 0 <= i < |r| ==> !IsUpper(r[i])
    ensures forall i :: 0 <= i < |s| && !IsUpper(s[i]) ==> r[i] == s[i]
    ensures forall i :: 0 <= i < |s| && IsUpper(s[i]) ==> r[i] as int == s[i] as int + 32
  {
    seq(|s|, i requires 0 <= i < |s| => LowerChar(s[i]))
  }

  /** Text without capitals is left as it is. */
  lemma ToLowerUnchanged(s: string)
    requires forall i :: 0 <= i < |s| ==> !IsUpper(s[i])
    ensures ToLower(s) == s
  {
  }

  /** The longest prefix of `s` whose characters all satisfy `p`. */
  function TakeWhile(s: string, p: char -> bool): (r: string)
    decreases |s|
    ensures |r| <= |s| && r == s[..|r|]
    ensures forall i :: 0 <= i < |r| ==> p(r[i])
    ensures |r| == |s| || !p(s[|r|])
  {
    if s == [] || !p(s[0]) then [] else [s[0]] + TakeWhile(s[1..], p)
  }

  /** The run `u` is what `TakeWhile` returns whenever `u` is followed by a character that stops it. */
  lemma {:induction false} TakeWhileRun(u: string, rest: string, p: char -> bool)
    requires forall i :: 0 <= i < |u| ==> p(u[i])
    requires rest == [] || !p(rest[0])
    ensures TakeWhile(u + rest, p) == u
  {
    if u != [] {
      assert (u + rest)[1..] == u[1..] + rest;
      TakeWhileRun(u[1..], rest, p);
    } else {
      assert u + rest == rest;
    }
  }

  // ---------------------------------------------------------------------------
  // URL removal: the pattern `http\S+|www\.\S+`, replaced by nothing

  /** A match of `http\S+|www\.\S+` begins here. */
  predicate StartsUrl(s: string) {
    |s| > 4 && (s[..4] == "http" || s[..4] == "www.") && !IsSpace(s[4])
  }

  /** Deletes every URL: from `http` or `www.` (followed by a non-space) up to the next whitespace. */
  function StripUrls(s: string): (r: string)
    decreases |s|
    ensures |r| <= |s|
  {
    if s == [] then []
    else if StartsUrl(s) then
      assert s[0] == s[..4][0];
      var m := TakeWhile(s, NotSpace);
      StripUrls(s[|m|..])
    else [s[0]] + StripUrls(s[1..])
  }

  /** A URL at the front is removed up to (not including) the whitespace after it. */
  lemma UrlIsRemoved(u: string, rest: string)
    requires StartsUrl(u)
    requires forall i :: 0 <= i < |u| ==> !IsSpace(u[i])
    requires rest == [] || IsSpace(rest[0])
    ensures StripUrls(u + rest) == StripUrls(rest)
  {
    assert (u + rest)[..4] == u[..4];
    TakeWhileRun(u, rest, NotSpace);
    assert (u + rest)[|u|..] == rest;
  }

  /**
   * Stripping URLs works piece by piece across a cut just after whitespace (or
   * at the very front): no URL can run across it.
   */
  lemma {:induction false} StripUrlsAppend(a: string, b: string)
    requires a == [] || IsSpace(a[|a| - 1])
    ensures StripUrls(a + b) == StripUrls(a) + StripUrls(b)
    decreases |a|
  {
    if a == [] {
      assert a + b == b;
    } else {
      var s := a + b;
      StartsUrlBeforeCut(a, b);
      if StartsUrl(a) {
        var tail := UrlBeforeCut(a, b);
        StripUrlsAppend(tail, b);
      } else {
        assert s[0] == a[0] && s[1..] == a[1..] + b;
        StripUrlsAppend(a[1..], b);
        assert [a[0]] + (StripUrls(a[1..]) + StripUrls(b)) == ([a[0]] + StripUrls(a[1..])) + StripUrls(b);
      }
    }
  }

  /** Whether a URL starts at the front does not depend on what follows a whitespace. */
  lemma StartsUrlBeforeCut(a: string, b: string)
    requires a != [] && IsSpace(a[|a| - 1])
    ensures StartsUrl(a + b) <==> StartsUrl(a)
  {
    var s := a + b;
    if |a| > 4 {
      assert s[..4] == a[..4] && s[4] == a[4];
    } else if |s| > 4 {
      assert s[..4][|a| - 1] == a[|a| - 1];
    }
  }

  /** A URL at the front of `a`, which ends in whitespace, ends inside `a`. */
  lemma UrlBeforeCut(a: string, b: string) returns (tail: string)
    requires StartsUrl(a) && IsSpace(a[|a| - 1])
    ensures tail != [] && IsSpace(tail[|tail| - 1]) && |tail| < |a|
    ensures StripUrls(a) == StripUrls(tail)
    ensures StripUrls(a + b) == StripUrls(tail + b)
  {
    assert a[0] == a[..4][0];
    var m := TakeWhile(a, NotSpace);
    tail := a[|m|..];
    assert a == m + tail;
    assert StripUrls(a + b) == StripUrls(tail + b) by {
      TakeWhileRun(m, tail + b, NotSpace);
      assert (a + b)[..4] == a[..4] && (a + b)[4] == a[4];
      assert a + b == m + (tail + b);
      assert (a + b)[|m|..] == tail + b;
    }
  }

  /** A URL anywhere after whitespace is removed up to the whitespace after it; the text around it stays. */
  lemma UrlAnywhere(a: string, u: string, rest: string)
    requires a == [] || IsSpace(a[|a| - 1])
    requires StartsUrl(u)
    requires forall i :: 0 <= i < |u| ==> !IsSpace(u[i])
    requires rest == [] || IsSpace(rest[0])
    ensures StripUrls(a + u + rest) == StripUrls(a) + StripUrls(rest)
  {
    assert a + u + rest == a + (u + rest);
    StripUrlsAppend(a, u + rest);
    UrlIsRemoved(u, rest);
  }

  // ---------------------------------------------------------------------------
  // Mention removal: the pattern `@\w+`, replaced by nothing

  predicate StartsMention(s: string) {
    |s| > 1 && s[0] == '@' && IsWordChar(s[1])
  }

  /** Deletes every `@` that is followed by word characters, together with those characters. */
  function StripMentions(s: string): (r: string)
    decreases |s|
    ensures |r| <= |s|
  {
    if s == [] then []
    else if StartsMention(s) then
      var w := TakeWhile(s[1..], IsWordChar);
      StripMentions(s[1 + |w|..])
    else [s[0]] + StripMentions(s[1..])
  }

  /** Text without an `@` holds no mention and is left as it is. */
  lemma {:induction false} StripMentionsUnchanged(s: string)
    requires '@' !in s
    ensures StripMentions(s) == s
  {
    if s != [] {
      assert s[0] != '@' && '@' !in s[1..];
      StripMentionsUnchanged(s[1..]);
      assert [s[0]] + s[1..] == s;
    }
  }

  /** A mention at the front goes, and with it every word character after the `@`. */
  lemma MentionIsRemoved(w: string, rest: string)
    requires w != [] && forall i :: 0 <= i < |w| ==> IsWordChar(w[i])
    requires rest == [] || !IsWordChar(rest[0])
    ensures StripMentions("@" + w + rest) == StripMentions(rest)
  {
    var s := "@" + w + rest;
    assert s == ['@'] + (w + rest);
    MentionAt(s, w, rest);
  }

  lemma MentionAt(s: string, w: string, rest: string)
    requires s != [] && s[0] == '@' && s[1..] == w + rest
    requires w != [] && forall i :: 0 <= i < |w| ==> IsWordChar(w[i])
    requires rest == [] || !IsWordChar(rest[0])
    ensures StripMentions(s) == StripMentions(rest)
  {
    assert s[1] == w[0];
    TakeWhileRun(w, rest, IsWordChar);
    assert s[1 + |w|..] == (w + rest)[|w|..] == rest;
  }

  /**
   * Stripping mentions works piece by piece across a cut before a character
   * that cannot continue a mention: no mention can run across it.
   */
  lemma {:induction false} StripMentionsAppend(a: string, b: string)
    requires b == [] || !IsWordChar(b[0])
    ensures StripMentions(a + b) == StripMentions(a) + StripMentions(b)
    decreases |a|
  {
    if a == [] {
      assert a + b == b;
    } else {
      StartsMentionBeforeCut(a, b);
      if StartsMention(a) {
        var tail := MentionBeforeCut(a, b);
        StripMentionsAppend(tail, b);
      } else {
        var s := a + b;
        assert s[0] == a[0] && s[1..] == a[1..] + b;
        StripMentionsAppend(a[1..], b);
        assert [a[0]] + (StripMentions(a[1..]) + StripMentions(b)) == ([a[0]] + StripMentions(a[1..])) + StripMentions(b);
      }
    }
  }

  /** Whether a mention starts at the front does not depend on what follows a cut before a non-word character. */
  lemma StartsMentionBeforeCut(a: string, b: string)
    requires a != [] && (b == [] || !IsWordChar(b[0]))
    ensures StartsMention(a + b) <==> StartsMention(a)
  {
    var s := a + b;
    assert s[0] == a[0];
    if |a| > 1 {
      assert s[1] == a[1];
    } else if b != [] {
      assert s[1] == b[0];
    }
  }

  /** A mention at the front of `a` ends inside `a` when a non-word character follows `a`. */
  lemma MentionBeforeCut(a: string, b: string) returns (tail: string)
    requires StartsMention(a) && (b == [] || !IsWordChar(b[0]))
    ensures |tail| < |a|
    ensures StripMentions(a) == StripMentions(tail)
    ensures StripMentions(a + b) == StripMentions(tail + b)
  {
    var w := TakeWhile(a[1..], IsWordChar);
    tail := a[1 + |w|..];
    assert a[1..] == w + tail;
    assert StripMentions(a + b) == StripMentions(tail + b) by {
      TakeWhileRun(w, tail + b, IsWordChar);
      var s := a + b;
      assert s[0] == a[0] && s[1] == a[1];
      assert s[1..] == w + (tail + b);
      assert s[1 + |w|..] == tail + b;
    }
  }

  /** A mention anywhere in the text goes with all its word characters; the text around it stays. */
  lemma MentionAnywhere(a: string, w: string, rest: string)
    requires w != [] && forall i :: 0 <= i < |w| ==> IsWordChar(w[i])
    requires rest == [] || !IsWordChar(rest[0])
    ensures StripMentions(a + "@" + w + rest) == StripMentions(a) + StripMentions(rest)
  {
    assert a + "@" + w + rest == a + ("@" + w + rest);
    StripMentionsAppend(a, "@" + w + rest);
    MentionIsRemoved(w, rest);
  }

  // ---------------------------------------------------------------------------
  // Hash removal: every `#` goes

  /** Deletes every `#` and keeps everything else, in order. */
  function RemoveHashes(s: string): (r: string)
    decreases |s|
    ensures '#' !in r
  {
    if s == [] then [] else (if s[0] == '#' then [] else [s[0]]) + RemoveHashes(s[1..])
  }

  /** Text without a `#` is left as it is. */
  lemma {:induction false} RemoveHashesUnchanged(s: string)
    requires '#' !in s
    ensures RemoveHashes(s) == s
  {
    if s != [] {
      assert s[0] != '#' && '#' !in s[1..];
      RemoveHashesUnchanged(s[1..]);
      assert [s[0]] + s[1..] == s;
    }
  }

  lemma {:induction false} RemoveHashesAppend(a: string, b: string)
    ensures RemoveHashes(a + b) == RemoveHashes(a) + RemoveHashes(b)
  {
    if a != [] {
      var h := if a[0] == '#' then [] else [a[0]];
      assert (a + b)[1..] == a[1..] + b && (a + b)[0] == a[0];
      assert RemoveHashes(a + b) == h + RemoveHashes(a[1..] + b);
      RemoveHashesAppend(a[1..], b);
      assert h + (RemoveHashes(a[1..]) + RemoveHashes(b)) == (h + RemoveHashes(a[1..])) + RemoveHashes(b);
    } else {
      assert a + b == b;
    }
  }

  /** The text on both sides of a `#` is kept; only the `#` goes. */
  lemma HashtagTextIsKept(a: string, b: string)
    ensures RemoveHashes(a + "#" + b) == RemoveHashes(a) + RemoveHashes(b)
  {
    var ra, rb := RemoveHashes(a), RemoveHashes(b);
    assert RemoveHashes("#") == [] by {
      assert "#"[1..] == [];
    }
    assert RemoveHashes(a + "#") == ra by {
      RemoveHashesAppend(a, "#");
      assert ra + [] == ra;
    }
    RemoveHashesAppend(a + "#", b);
  }

  // ---------------------------------------------------------------------------
  // Every character outside `[a-z0-9\s]` becomes a space

  /** Every character is a lower-case letter, a digit or whitespace. */
  predicate AlnumOrSpace(s: string) {
    forall i :: 0 <= i < |s| ==> IsLowerAlnum(s[i]) || IsSpace(s[i])
  }

  predicate AllLowerAlnum(s: string) {
    forall i :: 0 <= i < |s| ==> IsLowerAlnum(s[i])
  }

  /** Replaces every character outside `[a-z0-9\s]` by a space. */
  function MapToAlnum(s: string): (r: string)
    ensures |r| == |s| && AlnumOrSpace(r)
    ensures forall i :: 0 <= i < |s| ==> r[i] == (if IsLowerAlnum(s[i]) || IsSpace(s[i]) then s[i] else ' ')
  {
    seq(|s|, i requires 0 <= i < |s| => if IsLowerAlnum(s[i]) || IsSpace(s[i]) then s[i] else ' ')
  }

  /** Text over `[a-z0-9\s]` is left as it is. */
  lemma MapToAlnumUnchanged(s: string)
    requires AlnumOrSpace(s)
    ensures MapToAlnum(s) == s
  {
  }

  // ---------------------------------------------------------------------------
  // Whitespace: each run of the pattern `\s+` becomes one space, then both ends are stripped

  /** Replaces every run of whitespace by one space. */
  function Collapse(s: string): (r: string)
    decreases |s|
    ensures s == [] <==> r == []
    ensures s != [] ==> r[0] == (if IsSpace(s[0]) then ' ' else s[0])
    ensures s != [] ==> (r[|r| - 1] == ' ' <==> IsSpace(s[|s| - 1]))
    ensures forall i :: 0 <= i < |r| ==> r[i] == ' ' || (r[i] in s && !IsSpace(r[i]))
    ensures forall i :: 0 <= i < |r| - 1 ==> r[i] != ' ' || r[i + 1] != ' '
  {
    if s == [] then []
    else
      var k := if IsSpace(s[0]) then |TakeWhile(s, IsSpace)| else 1;
      var tail := s[k..];
      var rest := Collapse(tail);
      var r := [if IsSpace(s[0]) then ' ' else s[0]] + rest;
      assert forall i :: 0 <= i < |r| ==> r[i] == ' ' || (r[i] in s && !IsSpace(r[i])) by {
        forall i | 0 < i < |r| && r[i] != ' ' ensures r[i] in s {
          var j :| 0 <= j < |tail| && tail[j] == r[i];
          assert s[k + j] == r[i];
        }
      }
      assert forall i :: 0 <= i < |r| - 1 ==> r[i] != ' ' || r[i + 1] != ' ' by {
        forall i | 0 <= i < |r| - 1 && r[i] == ' ' ensures r[i + 1] != ' ' {
          if i == 0 {
            assert r[1] == rest[0];
            assert s[k] == tail[0];
          } else {
            assert r[i] == rest[i - 1] && r[i + 1] == rest[i];
          }
        }
      }
      assert r[|r| - 1] == ' ' <==> IsSpace(s[|s| - 1]) by {
        if tail != [] {
          assert r[|r| - 1] == rest[|rest| - 1] && s[|s| - 1] == tail[|tail| - 1];
        }
      }
      r
  }

  /** Text without whitespace is left as it is. */
  lemma {:induction false} CollapseUnchanged(s: string)
    requires forall i :: 0 <= i < |s| ==> !IsSpace(s[i])
    ensures Collapse(s) == s
  {
    if s != [] {
      assert forall i :: 0 <= i < |s[1..]| ==> s[1..][i] == s[i + 1];
      CollapseUnchanged(s[1..]);
      assert Collapse(s) == [s[0]] + Collapse(s[1..]);
      assert [s[0]] + s[1..] == s;
    }
  }

  /** Collapsing keeps only the characters `[a-z0-9]` and the space when that is all there was. */
  lemma CollapseKeepsAlphabet(s: string)
    requires AlnumOrSpace(s)
    ensures AlnumOrSpace(Collapse(s))
  {
    var r := Collapse(s);
    forall i | 0 <= i < |r| ensures IsLowerAlnum(r[i]) || IsSpace(r[i]) {
      if r[i] != ' ' {
        var j :| 0 <= j < |s| && s[j] == r[i];
      }
    }
  }

  /** Drops the leading whitespace. */
  function StripLeading(s: string): (r: string)
    ensures |r| <= |s| && r == s[|s| - |r|..]
    ensures forall i :: 0 <= i < |s| - |r| ==> IsSpace(s[i])
    ensures r == [] || !IsSpace(r[0])
  {
    s[|TakeWhile(s, IsSpace)|..]
  }

  /** Drops the trailing whitespace. */
  function StripTrailing(s: string): (r: string)
    decreases |s|
    ensures |r| <= |s| && r == s[..|r|]
    ensures forall i :: |r| <= i < |s| ==> IsSpace(s[i])
    ensures r == [] || !IsSpace(r[|r| - 1])
  {
    if s == [] || !IsSpace(s[|s| - 1]) then s else StripTrailing(s[..|s| - 1])
  }

  /** Python's strip with no argument: drops the whitespace at both ends. */
  function Strip(s: string): (r: string)
    ensures r == [] || (!IsSpace(r[0]) && !IsSpace(r[|r| - 1]))
    ensures exists lo :: IsTrimmedTo(s, lo, r)
    ensures AlnumOrSpace(s) ==> AlnumOrSpace(r)
  {
    var t := StripLeading(s);
    var r := StripTrailing(t);
    TrimmedSlice(s, t, r);
    r
  }

  /** Dropping whitespace at the front and then at the back leaves a slice with only whitespace around it. */
  lemma TrimmedSlice(s: string, t: string, r: string)
    requires |t| <= |s| && t == s[|s| - |t|..] && forall i :: 0 <= i < |s| - |t| ==> IsSpace(s[i])
    requires |r| <= |t| && r == t[..|r|] && forall i :: |r| <= i < |t| ==> IsSpace(t[i])
    ensures IsTrimmedTo(s, |s| - |t|, r)
    ensures forall i :: 0 <= i < |r| ==> r[i] == s[|s| - |t| + i]
  {
    var lo := |s| - |t|;
    assert forall i :: lo + |r| <= i < |s| ==> s[i] == t[i - lo];
  }

  /** `r` is the slice of `s` at `lo`, with only whitespace before it and after it. */
  predicate IsTrimmedTo(s: string, lo: int, r: string) {
    && 0 <= lo && lo + |r| <= |s| && r == s[lo..lo + |r|]
    && (forall i :: 0 <= i < lo ==> IsSpace(s[i]))
    && (forall i :: lo + |r| <= i < |s| ==> IsSpace(s[i]))
  }

  /** Text with no whitespace at either end is left as it is. */
  lemma StripUnchanged(s: string)
    requires s == [] || (!IsSpace(s[0]) && !IsSpace(s[|s| - 1]))
    ensures Strip(s) == s
  {
    if s != [] {
      assert TakeWhile(s, IsSpace) == [];
      assert StripLeading(s) == s[0..] == s;
    }
  }

  // ---------------------------------------------------------------------------
  // Tokens: splitting on whitespace, the token filter, and joining with single spaces

  /** A token of `str.split()`: non-empty, without whitespace. */
  predicate IsToken(t: string) {
    t != [] && forall i :: 0 <= i < |t| ==> !IsSpace(t[i])
  }

  /** `str.split()` with no separator: the maximal runs of non-whitespace, in order. */
  function Split(s: string): (ts: seq<string>)
    decreases |s|
    ensures forall k :: 0 <= k < |ts| ==> IsToken(ts[k])
    ensures AlnumOrSpace(s) ==> forall k :: 0 <= k < |ts| ==> AllLowerAlnum(ts[k])
  {
    if s == [] then []
    else if IsSpace(s[0]) then
      assert AlnumOrSpace(s) ==> AlnumOrSpace(s[1..]);
      Split(s[1..])
    else
      var w := TakeWhile(s, NotSpace);
      var tail := s[|w|..];
      assert AlnumOrSpace(s) ==> AlnumOrSpace(tail);
      [w] + Split(tail)
  }

  /** The tokens joined with one space between each two. */
  function Join(ts: seq<string>): string {
    if ts == [] then "" else if |ts| == 1 then ts[0] else ts[0] + " " + Join(ts[1..])
  }

  /** Splitting a join of tokens gives the tokens back. */
  lemma {:induction false} SplitJoin(ts: seq<string>)
    requires forall k :: 0 <= k < |ts| ==> IsToken(ts[k])
    ensures Split(Join(ts)) == ts
  {
    if |ts| == 1 {
      TakeWhileRun(ts[0], [], NotSpace);
      assert ts[0] + [] == ts[0];
    } else if |ts| > 1 {
      var t, j := ts[0], Join(ts[1..]);
      var rest := " " + j;
      assert Join(ts) == t + rest by {
        assert [t] + ts[1..] == ts;
        JoinCons(t, ts[1..]);
        AppendAssociative(t, " ", j);
      }
      assert !IsSpace(t[0]);
      TakeWhileRun(t, rest, NotSpace);
      var w, tail := SplitFront(t + rest);
      assert tail == rest by {
        assert (t + rest)[|t|..] == rest;
      }
      assert Split(rest) == Split(j) by {
        assert rest[1..] == j;
      }
      SplitJoin(ts[1..]);
      assert [t] + ts[1..] == ts;
    }
  }

  /** The characters of `s` that are not whitespace, in order. */
  function RemoveSpaces(s: string): (r: string)
    decreases |s|
  {
    if s == [] then [] else (if IsSpace(s[0]) then [] else [s[0]]) + RemoveSpaces(s[1..])
  }

  /** The tokens glued together with nothing between them. */
  function Concat(ts: seq<string>): string {
    if ts == [] then "" else ts[0] + Concat(ts[1..])
  }

  lemma {:induction false} RemoveSpacesOfRun(w: string, tail: string)
    requires forall i :: 0 <= i < |w| ==> !IsSpace(w[i])
    ensures RemoveSpaces(w + tail) == w + RemoveSpaces(tail)
  {
    if w == [] {
      assert w + tail == tail;
    } else {
      assert (w + tail)[0] == w[0] && (w + tail)[1..] == w[1..] + tail;
      RemoveSpacesOfRun(w[1..], tail);
      assert [w[0]] + (w[1..] + RemoveSpaces(tail)) == w + RemoveSpaces(tail);
    }
  }

  /** Splitting loses the whitespace and nothing else: the tokens glued together are the text without its whitespace. */
  lemma {:induction false} SplitKeepsText(s: string)
    ensures Concat(Split(s)) == RemoveSpaces(s)
    decreases |s|
  {
    if s != [] {
      if IsSpace(s[0]) {
        SplitKeepsText(s[1..]);
      } else {
        var w := TakeWhile(s, NotSpace);
        var tail := s[|w|..];
        assert s == w + tail;
        RemoveSpacesOfRun(w, tail);
        SplitKeepsText(tail);
        assert ([w] + Split(tail))[1..] == Split(tail);
      }
    }
  }

  /** A run of leading whitespace does not change the tokens. */
  lemma {:induction false} SplitSkipsSpaces(s: string, k: nat)
    requires k <= |s| && forall i :: 0 <= i < k ==> IsSpace(s[i])
    ensures Split(s) == Split(s[k..])
  {
    if k == 0 {
      assert s[0..] == s;
    } else {
      SplitSkipsSpaces(s[1..], k - 1);
      assert s[1..][k - 1..] == s[k..];
    }
  }

  /** The tokens of a text with one more non-whitespace character in front. */
  lemma SplitCons(c: char, x: string)
    requires !IsSpace(c)
    ensures x != [] && !IsSpace(x[0]) ==>
      Split(x) != [] && Split([c] + x) == [[c] + Split(x)[0]] + Split(x)[1..]
    ensures x == [] || IsSpace(x[0]) ==> Split([c] + x) == [[c]] + Split(x)
  {
    var s := [c] + x;
    var w, tail := SplitFront(s);
    if x == [] || IsSpace(x[0]) {
      TakeWhileRun([c], x, NotSpace);
      assert tail == x;
    } else {
      var wx, tx := SplitFront(x);
      assert s == ([c] + wx) + tx;
      assert tx == [] || IsSpace(tx[0]);
      TakeWhileRun([c] + wx, tx, NotSpace);
      assert w == [c] + wx;
      assert tail == tx;
      assert ([wx] + Split(tx))[1..] == Split(tx);
    }
  }

  /** Collapsing whitespace keeps the tokens. */
  lemma {:induction false} CollapseKeepsTokens(s: string)
    ensures Split(Collapse(s)) == Split(s)
    decreases |s|
  {
    if s != [] {
      if IsSpace(s[0]) {
        var tail := CollapseSpaceFront(s);
        assert Split(s) == Split(tail) && Split(Collapse(s)) == Split(Collapse(tail));
        CollapseKeepsTokens(tail);
      } else {
        var x, y := Collapse(s[1..]), s[1..];
        assert Collapse(s) == [s[0]] + x && [s[0]] + y == s;
        assert Split(x) == Split(y) by {
          CollapseKeepsTokens(y);
        }
        assert x == [] <==> y == [];
        assert x != [] ==> (IsSpace(x[0]) <==> IsSpace(y[0]));
        SplitCons(s[0], x);
        SplitCons(s[0], y);
      }
    }
  }

  /** A leading run of whitespace becomes one space, and neither the run nor the space makes a token. */
  lemma CollapseSpaceFront(s: string) returns (tail: string)
    requires s != [] && IsSpace(s[0])
    ensures |tail| < |s|
    ensures Split(s) == Split(tail)
    ensures Split(Collapse(s)) == Split(Collapse(tail))
  {
    var run := TakeWhile(s, IsSpace);
    tail := s[|run|..];
    var x := Collapse(tail);
    assert Collapse(s) == [' '] + x;
    assert ([' '] + x)[1..] == x;
    SplitSkipsSpaces(s, |run|);
  }

  /** A text of the cleaned shape is the join of its tokens. */
  lemma {:induction false} JoinSplit(r: string)
    requires IsCleanShape(r)
    ensures Join(Split(r)) == r
    decreases |r|
  {
    if r != [] {
      assert !IsSpace(r[0]) by {
        assert IsLowerAlnum(r[0]);
      }
      var w, tail := SplitFront(r);
      if tail == [] {
        assert Split(r) == [w];
        assert r == w;
      } else {
        var t := CleanShapeAfterSpace(r, |w|);
        JoinSplit(t);
        assert tail == " " + t && tail[1..] == t;
        var ts := Split(t);
        assert Split(tail) == ts;
        JoinCons(w, ts);
        calc {
          Join(Split(r));
          Join([w] + ts);
          w + " " + Join(ts);
          w + " " + t;
          { AppendAssociative(w, " ", t); }
          w + (" " + t);
          w + tail;
          r;
        }
      }
    }
  }

  /** The first token of a text that starts with one, and what follows it. */
  lemma SplitFront(r: string) returns (w: string, tail: string)
    requires r != [] && !IsSpace(r[0])
    ensures w == TakeWhile(r, NotSpace) && tail == r[|w|..] && r == w + tail
    ensures Split(r) == [w] + Split(tail)
  {
    w := TakeWhile(r, NotSpace);
    tail := r[|w|..];
  }

  lemma JoinCons(w: string, ts: seq<string>)
    requires ts != []
    ensures Join([w] + ts) == w + " " + Join(ts)
  {
    assert ([w] + ts)[1..] == ts;
  }

  /** After a whitespace character in a text of the cleaned shape comes a shorter text of the cleaned shape that starts a token. */
  lemma CleanShapeAfterSpace(r: string, k: nat) returns (t: string)
    requires IsCleanShape(r) && k < |r| && IsSpace(r[k])
    ensures r[k] == ' ' && t == r[k + 1..] && t != []
    ensures IsCleanShape(t) && !IsSpace(t[0])
    ensures Split(t) != []
  {
    assert !IsLowerAlnum(r[k]);
    t := r[k + 1..];
    assert k + 1 < |r|;
    assert IsLowerAlnum(t[0]) by {
      assert t[0] == r[k + 1];
    }
    assert forall i :: 0 <= i < |t| ==> t[i] == r[k + 1 + i];
  }

  /** The shape of a cleaned text: `[a-z0-9]` and single spaces, nothing at either end. */
  predicate IsCleanShape(r: string) {
    && (forall i :: 0 <= i < |r| ==> IsLowerAlnum(r[i]) || r[i] == ' ')
    && (r != [] ==> r[0] != ' ' && r[|r| - 1] != ' ')
    && (forall i :: 0 <= i < |r| - 1 ==> r[i] != ' ' || r[i + 1] != ' ')
  }

  /** Joining non-empty tokens over `[a-z0-9]` gives a text of the cleaned shape. */
  lemma {:induction false} JoinShape(ts: seq<string>)
    requires forall k :: 0 <= k < |ts| ==> ts[k] != [] && AllLowerAlnum(ts[k])
    ensures IsCleanShape(Join(ts))
    ensures Join(ts) != [] ==> IsLowerAlnum(Join(ts)[0])
  {
    if |ts| > 1 {
      JoinShape(ts[1..]);
      var t := ts[0];
      var j := Join(ts[1..]);
      var r := t + " " + j;
      assert r == Join(ts);
      assert forall i :: 0 <= i < |t| ==> r[i] == t[i];
      assert r[|t|] == ' ';
      assert forall i :: |t| < i < |r| ==> r[i] == j[i - |t| - 1];
    }
  }

  /** Keeps, in order, the tokens of at least two characters that are not stopwords. */
  function KeepTokens(ts: seq<string>, stopwords: set<string>): (kept: seq<string>)
    decreases |ts|
    ensures IsSubsequence(kept, ts)
    ensures forall k :: 0 <= k < |kept| ==> |kept[k]| > 1 && kept[k] !in stopwords && kept[k] in ts
    ensures forall t :: t in ts && |t| > 1 && t !in stopwords ==> t in kept
  {
    if ts == [] then []
    else
      var rest := KeepTokens(ts[1..], stopwords);
      if |ts[0]| > 1 && ts[0] !in stopwords then
        assert [ts[0]] + rest == [ts[0]] + rest;
        [ts[0]] + rest
      else rest
  }

  /** The positions of the tokens that the filter keeps. */
  ghost function KeptPositions(ts: seq<string>, stopwords: set<string>): set<nat> {
    set k: nat | k < |ts| && |ts[k]| > 1 && ts[k] !in stopwords
  }

  /** The first token is kept or dropped on its own. */
  lemma KeepTokensFirst(ts: seq<string>, stopwords: set<string>)
    requires ts != []
    ensures KeepTokens(ts, stopwords)
      == (if |ts[0]| > 1 && ts[0] !in stopwords then [ts[0]] else []) + KeepTokens(ts[1..], stopwords)
  {
  }

  /** Filtering works token by token. */
  lemma {:induction false} KeepTokensAppend(a: seq<string>, b: seq<string>, stopwords: set<string>)
    ensures KeepTokens(a + b, stopwords) == KeepTokens(a, stopwords) + KeepTokens(b, stopwords)
  {
    if a == [] {
      assert a + b == b;
    } else {
      assert (a + b)[0] == a[0] && (a + b)[1..] == a[1..] + b;
      KeepTokensAppend(a[1..], b, stopwords);
      var h := if |a[0]| > 1 && a[0] !in stopwords then [a[0]] else [];
      KeepTokensFirst(a + b, stopwords);
      KeepTokensFirst(a, stopwords);
      AppendAssociative(h, KeepTokens(a[1..], stopwords), KeepTokens(b, stopwords));
    }
  }

  /** The filter keeps one token for each position holding a token of at least two characters that is not a stopword. */
  lemma {:induction false} KeepTokensCount(ts: seq<string>, stopwords: set<string>)
    ensures |KeepTokens(ts, stopwords)| == |KeptPositions(ts, stopwords)|
    decreases |ts|
  {
    if ts != [] {
      var init := ts[..|ts| - 1];
      KeepTokensLast(ts, stopwords);
      KeptPositionsLast(ts, stopwords);
      KeepTokensCount(init, stopwords);
    }
  }

  lemma KeepTokensLast(ts: seq<string>, stopwords: set<string>)
    requires ts != []
    ensures var last := ts[|ts| - 1];
      |KeepTokens(ts, stopwords)|
      == |KeepTokens(ts[..|ts| - 1], stopwords)| + (if |last| > 1 && last !in stopwords then 1 else 0)
  {
    var init, last := ts[..|ts| - 1], ts[|ts| - 1];
    assert ts == init + [last];
    KeepTokensAppend(init, [last], stopwords);
    KeepTokensFirst([last], stopwords);
    assert [last][1..] == [];
  }

  lemma KeptPositionsLast(ts: seq<string>, stopwords: set<string>)
    requires ts != []
    ensures var last := ts[|ts| - 1];
      |KeptPositions(ts, stopwords)|
      == |KeptPositions(ts[..|ts| - 1], stopwords)| + (if |last| > 1 && last !in stopwords then 1 else 0)
  {
    var init, last := ts[..|ts| - 1], |ts| - 1;
    var before := KeptPositions(init, stopwords);
    assert last !in before;
    if |ts[last]| > 1 && ts[last] !in stopwords {
      assert |KeptPositions(ts, stopwords)| == |before| + 1 by {
        assert KeptPositions(ts, stopwords) == before + {last} by {
          assert forall i: nat | i < |init| :: init[i] == ts[i];
        }
        assert |before + {last}| == |before| + 1;
      }
    } else {
      assert KeptPositions(ts, stopwords) == before by {
        assert forall i: nat | i < |init| :: init[i] == ts[i];
      }
    }
  }

  /** `a` is `b` with some elements left out, the rest in their original order. */
  predicate IsSubsequence<T(==)>(a: seq<T>, b: seq<T>)
    decreases |b|
  {
    if a == [] then true
    else if b == [] then false
    else (a[0] == b[0] && IsSubsequence(a[1..], b[1..])) || IsSubsequence(a, b[1..])
  }

  // ---------------------------------------------------------------------------
  // clean_text

  /** The text after every substitution and `strip()`, before it is split. */
  function Normalize(s: string, removeEmoji: string -> string): (r: string)
    ensures AlnumOrSpace(r)
    ensures r == [] || (!IsSpace(r[0]) && !IsSpace(r[|r| - 1]))
  {
    var t := MapToAlnum(RemoveHashes(StripMentions(StripUrls(removeEmoji(ToLower(s))))));
    CollapseKeepsAlphabet(t);
    Strip(Collapse(t))
  }

  /**
   * `clean_text`: a non-string gives the empty string; a string is normalised,
   * split, filtered and joined again with single spaces.
   */
  function CleanText(x: Input, removeEmoji: string -> string, stopwords: set<string>): (r: string)
    ensures x.NonText? ==> r == ""
    ensures IsCleanShape(r)
    ensures x.Text? ==> Split(r) == KeepTokens(Split(Normalize(x.s, removeEmoji)), stopwords)
  {
    match x
    case NonText => ""
    case Text(s) =>
      var ts := Split(Normalize(s, removeEmoji));
      var kept := KeepTokens(ts, stopwords);
      assert forall k :: 0 <= k < |kept| ==> IsToken(kept[k]) && AllLowerAlnum(kept[k]) by {
        forall k | 0 <= k < |kept| ensures IsToken(kept[k]) && AllLowerAlnum(kept[k]) {
          var j :| 0 <= j < |ts| && ts[j] == kept[k];
        }
      }
      JoinShape(kept);
      SplitJoin(kept);
      Join(kept)
  }

  /**
   * The tokens of the cleaned text are tokens of the normalised text, in their
   * original order, each at least two characters long and not a stopword.
   */
  lemma CleanTextTokens(s: string, removeEmoji: string -> string, stopwords: set<string>)
    ensures var ts := Split(CleanText(Text(s), removeEmoji, stopwords));
      && IsSubsequence(ts, Split(Normalize(s, removeEmoji)))
      && (forall k :: 0 <= k < |ts| ==> |ts[k]| > 1 && ts[k] !in stopwords)
  {
  }

  /** Where no URL starts, stripping URLs changes nothing. */
  lemma {:induction false} StripUrlsWithoutUrl(s: string)
    requires forall i :: 0 <= i < |s| ==> !StartsUrl(s[i..])
    ensures StripUrls(s) == s
  {
    if s != [] {
      assert s[0..] == s;
      forall i | 0 <= i < |s| - 1 ensures !StartsUrl(s[1..][i..]) {
        assert s[1..][i..] == s[i + 1..];
      }
      StripUrlsWithoutUrl(s[1..]);
    }
  }

  /** Text in front in which no URL starts is kept as it is, whatever follows it; the URLs after it still go. */
  lemma {:induction false} StripUrlsAfterPlainText(a: string, b: string)
    requires forall i :: 0 <= i < |a| ==> !StartsUrl((a + b)[i..])
    ensures StripUrls(a + b) == a + StripUrls(b)
  {
    if a == [] {
      assert a + b == b;
    } else {
      var s := a + b;
      assert s[0..] == s && s[0] == a[0] && s[1..] == a[1..] + b;
      forall i | 0 <= i < |a| - 1 ensures !StartsUrl((a[1..] + b)[i..]) {
        assert (a[1..] + b)[i..] == s[i + 1..];
      }
      StripUrlsAfterPlainText(a[1..], b);
      AppendAssociative([a[0]], a[1..], StripUrls(b));
      assert [a[0]] + a[1..] == a;
    }
  }

  /** A URL glued to the end of a word is removed too: `"xhttp://a b"` becomes `"x b"`. */
  lemma UrlInsideWord()
    ensures StripUrls("xhttp://a b") == "x b"
  {
    var a, u, rest := "x", "http://a", " b";
    assert "xhttp://a b" == a + (u + rest);
    assert StripUrls(a + (u + rest)) == a + StripUrls(u + rest) by {
      PlainLetterBeforeUrl(u + rest);
    }
    assert StripUrls(u + rest) == StripUrls(rest) by {
      ExampleUrl();
      UrlIsRemoved(u, rest);
    }
    assert StripUrls(rest) == rest by {
      StripUrlsWithoutUrl(rest);
    }
    assert a + rest == "x b";
  }

  lemma PlainLetterBeforeUrl(b: string)
    ensures StripUrls("x" + b) == "x" + StripUrls(b)
  {
    var s := "x" + b;
    assert s[0..][0] == 'x';
    StripUrlsAfterPlainText("x", b);
  }

  lemma ExampleUrl()
    ensures StartsUrl("http://a")
    ensures forall i :: 0 <= i < |"http://a"| ==> !IsSpace("http://a"[i])
  {
    var u := "http://a";
    assert u[..4] == "http";
    assert forall i :: 0 <= i < |u| ==> '!' <= u[i] <= '~';
  }

  lemma StripUrlsOnExample()
    ensures StripUrls("ht#tpx") == "ht#tpx"
  {
    var s := "ht#tpx";
    assert s[0..][..4] == "ht#t";
    assert s[1..][..4] == "t#tp";
    StripUrlsWithoutUrl(s);
  }

  lemma HashFreeOnExample()
    ensures RemoveHashes("ht") == "ht" && RemoveHashes("tpx") == "tpx"
  {
    assert '#' !in "ht" && '#' !in "tpx";
    RemoveHashesUnchanged("ht");
    RemoveHashesUnchanged("tpx");
  }

  lemma RemoveHashesOnExample()
    ensures RemoveHashes("ht#tpx") == "httpx"
  {
    var a, b := "ht", "tpx";
    assert "ht#tpx" == a + "#" + b;
    assert RemoveHashes(a + "#" + b) == a + b by {
      HashtagTextIsKept(a, b);
      HashFreeOnExample();
    }
    assert a + b == "httpx";
  }

  lemma SplitOnExample()
    ensures Split("httpx") == ["httpx"]
    ensures KeepTokens(["httpx"], {}) == ["httpx"]
  {
    assert Split("httpx") == ["httpx"] by {
      SplitJoin(["httpx"]);
    }
    assert KeepTokens(["httpx"], {}) == ["httpx"] by {
      var ts: seq<string> := ["httpx"];
      KeepTokensFirst(ts, {});
      assert ts[1..] == [];
    }
  }

  lemma CaseAndMentionsOnExample()
    ensures ToLower("ht#tpx") == "ht#tpx" && ToLower("httpx") == "httpx"
    ensures StripMentions("ht#tpx") == "ht#tpx"
  {
    ToLowerUnchanged("ht#tpx");
    ToLowerUnchanged("httpx");
    assert '@' !in "ht#tpx";
    StripMentionsUnchanged("ht#tpx");
  }

  lemma LaterStagesOnExample()
    ensures Strip(Collapse(MapToAlnum("httpx"))) == "httpx"
  {
    MapToAlnumUnchanged("httpx");
    CollapseUnchanged("httpx");
    StripUnchanged("httpx");
  }

  /** An emoji remover for text that holds no emoji. */
  function NoEmoji(s: string): string {
    s
  }

  lemma CleanTextOnExample()
    ensures CleanText(Text("ht#tpx"), NoEmoji, {}) == "httpx"
  {
    CaseAndMentionsOnExample();
    StripUrlsOnExample();
    RemoveHashesOnExample();
    LaterStagesOnExample();
    assert Normalize("ht#tpx", NoEmoji) == "httpx";
    SplitOnExample();
  }

  lemma CleanTextOnUrl()
    ensures CleanText(Text("httpx"), NoEmoji, {}) == ""
  {
    CaseAndMentionsOnExample();
    UrlIsRemoved("httpx", []);
    assert "httpx" + [] == "httpx";
    assert Normalize("httpx", NoEmoji) == [];
  }

  /**
   * Cleaning is not idempotent: the `#` that splits `http` is removed only
   * after URLs are stripped, so a second pass strips the URL it leaves behind.
   */
  lemma CleanTextNotIdempotent()
    ensures var once := CleanText(Text("ht#tpx"), NoEmoji, {});
      CleanText(Text(once), NoEmoji, {}) != once
  {
    CleanTextOnExample();
    CleanTextOnUrl();
  }
}
