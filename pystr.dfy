/** The behaviour of the Python `str` built-ins that the citation pipeline
    relies on: character classes, `find`, `in`, `replace`, `strip`,
    `rstrip`, `split()`, `' '.join` and `lower`.  Letters, digits and case
    are ASCII; whitespace is the full set Python's `str.isspace` (and the
    regular-expression class `\s`) accepts. */
module PyStr {

  // ---------------------------------------------------------------------
  // Character classes
  // ---------------------------------------------------------------------

  /** `c.isspace()`, and the class `\s` of a str pattern. */
  predicate IsSpace(c: char) {
    c == ' ' || ('\t' <= c <= '\r') || ('\U{1c}' <= c <= '\U{1f}')
    || c == '\U{85}' || c == '\U{a0}' || c == '\U{1680}'
    || ('\U{2000}' <= c <= '\U{200a}') || c == '\U{2028}' || c == '\U{2029}'
    || c == '\U{202f}' || c == '\U{205f}' || c == '\U{3000}'
  }

  predicate IsDigit(c: char) { '0' <= c <= '9' }

  predicate IsUpper(c: char) { 'A' <= c <= 'Z' }

  predicate IsAlpha(c: char) { IsUpper(c) || 'a' <= c <= 'z' }

  /** The class `\w`: letters, digits and the underscore. */
  predicate IsWordChar(c: char) { IsAlpha(c) || IsDigit(c) || c == '_' }

  function LowerChar(c: char): (d: char)
    ensures !IsUpper(d)
    ensures IsUpper(c) || d == c
  {
    if IsUpper(c) then (c as int + 32) as char else c
  }

  /** No character of `s` is an upper-case letter. */
  predicate IsLower(s: string) {
    forall i :: 0 <= i < |s| ==> !IsUpper(s[i])
  }

  /** `s.lower()` */
  function Lower(s: string): (r: string)
    ensures |r| == |s| && IsLower(r)
    ensures forall i :: 0 <= i < |s| ==> r[i] == LowerChar(s[i])
  {
    seq(|s|, i requires 0 <= i < |s| => LowerChar(s[i]))
  }

  /** No character of `s` is whitespace. */
  predicate NoSpace(s: string) {
    forall i :: 0 <= i < |s| ==> !IsSpace(s[i])
  }

  // ---------------------------------------------------------------------
  // Searching
  // ---------------------------------------------------------------------

  /** `sub` occurs in `s` starting at index `i`. */
  predicate OccursAt(s: string, sub: string, i: nat) {
    i + |sub| <= |s| && s[i..i + |sub|] == sub
  }

  function FindFrom(s: string, sub: string, i: nat): (r: int)
    requires i <= |s|
    ensures r == -1 || (i <= r <= |s| && OccursAt(s, sub, r))
    ensures r == -1 ==> forall j :: i <= j <= |s| ==> !OccursAt(s, sub, j)
    ensures r != -1 ==> forall j :: i <= j < r ==> !OccursAt(s, sub, j)
    decreases |s| - i
  {
    if OccursAt(s, sub, i) then i
    else if i == |s| then -1
    else FindFrom(s, sub, i + 1)
  }

  /** `s.find(sub)`: the first index where `sub` occurs, or -1. */
  function Find(s: string, sub: string): int {
    FindFrom(s, sub, 0)
  }

  /** `sub in s` */
  predicate Contains(s: string, sub: string) {
    Find(s, sub) != -1
  }

  /** `find` gives -1 exactly when `sub` occurs nowhere, and otherwise the
      first place where it occurs. */
  lemma FindFirst(s: string, sub: string)
    ensures Find(s, sub) == -1 <==> forall j :: 0 <= j <= |s| ==> !OccursAt(s, sub, j)
    ensures Find(s, sub) != -1 ==> 0 <= Find(s, sub) <= |s| && OccursAt(s, sub, Find(s, sub))
    ensures Find(s, sub) != -1 ==> forall j :: 0 <= j < Find(s, sub) ==> !OccursAt(s, sub, j)
  {
  }

  /** `sub in s` holds exactly when `sub` occurs somewhere in `s`. */
  lemma ContainsOccurs(s: string, sub: string)
    ensures Contains(s, sub) ==> Find(s, sub) >= 0 && OccursAt(s, sub, Find(s, sub))
    ensures !Contains(s, sub) <==> forall j :: 0 <= j <= |s| ==> !OccursAt(s, sub, j)
  {
  }

  /** `s[:n]` for a non-negative `n`. */
  function Take(s: string, n: nat): (r: string)
    ensures |r| == if n < |s| then n else |s|
    ensures r == s[..|r|]
  {
    if n < |s| then s[..n] else s
  }

  // ---------------------------------------------------------------------
  // str.replace
  // ---------------------------------------------------------------------

  /** What `s.replace("", repl)` produces after its leading `repl`:
      every character of `s` followed by `repl`. */
  function Interleave(s: string, repl: string): (r: string)
    ensures repl == [] ==> r == s
  {
    if s == [] then [] else [s[0]] + repl + Interleave(s[1..], repl)
  }

  /** `s.replace(target, repl)`: every non-overlapping occurrence of `target`,
      scanning from the left, replaced by `repl`.  An empty `target` matches
      before every character and at the end. */
  function Replace(s: string, target: string, repl: string): string
    decreases |s|
  {
    if target == [] then repl + Interleave(s, repl)
    else if OccursAt(s, target, 0) then repl + Replace(s[|target|..], target, repl)
    else if s == [] then []
    else [s[0]] + Replace(s[1..], target, repl)
  }

  /** Replacing a text by itself changes nothing. */
  lemma {:induction false} ReplaceBySelf(s: string, target: string)
    ensures Replace(s, target, target) == s
    decreases |s|
  {
    if target == [] {
    } else if OccursAt(s, target, 0) {
      ReplaceBySelf(s[|target|..], target);
      assert s == s[..|target|] + s[|target|..];
    } else if s != [] {
      ReplaceBySelf(s[1..], target);
      assert s == [s[0]] + s[1..];
    }
  }

  /** Replacing by a text of the same length keeps the length. */
  lemma {:induction false} ReplaceSameLength(s: string, target: string, repl: string)
    requires target != [] && |repl| == |target|
    ensures |Replace(s, target, repl)| == |s|
    decreases |s|
  {
    if OccursAt(s, target, 0) {
      ReplaceSameLength(s[|target|..], target, repl);
    } else if s != [] {
      ReplaceSameLength(s[1..], target, repl);
    }
  }

  /** Replacing one character by one character keeps the length and
      changes exactly the positions that held the replaced character. */
  lemma {:induction false} ReplaceCharPointwise(s: string, c: char, d: char)
    ensures |Replace(s, [c], [d])| == |s|
    ensures forall i :: 0 <= i < |s| ==>
      Replace(s, [c], [d])[i] == if s[i] == c then d else s[i]
  {
    if s != [] {
      assert OccursAt(s, [c], 0) <==> s[0] == c by {
        assert s[0..1] == [s[0]];
      }
      ReplaceCharPointwise(s[1..], c, d);
    }
  }

  /** Deleting one character leaves only characters of `s` other than it. */
  lemma {:induction false} ReplaceDeletesChar(s: string, c: char)
    ensures forall x :: x in Replace(s, [c], []) ==> x in s && x != c
  {
    if s != [] {
      assert OccursAt(s, [c], 0) <==> s[0] == c by {
        assert s[0..1] == [s[0]];
      }
      ReplaceDeletesChar(s[1..], c);
    }
  }

  lemma {:induction false} InterleaveKeepsLower(s: string, repl: string)
    requires IsLower(s) && IsLower(repl)
    ensures IsLower(Interleave(s, repl))
  {
    if s != [] {
      InterleaveKeepsLower(s[1..], repl);
    }
  }

  /** Replacing inside lower-case text by lower-case text gives
      lower-case text. */
  lemma {:induction false} ReplaceKeepsLower(s: string, target: string, repl: string)
    requires IsLower(s) && IsLower(repl)
    ensures IsLower(Replace(s, target, repl))
    decreases |s|
  {
    if target == [] {
      InterleaveKeepsLower(s, repl);
    } else if OccursAt(s, target, 0) {
      ReplaceKeepsLower(s[|target|..], target, repl);
    } else if s != [] {
      ReplaceKeepsLower(s[1..], target, repl);
    }
  }

  /** Replacing a non-empty string that does not occur changes nothing. */
  lemma {:induction false} ReplaceAbsent(s: string, target: string, repl: string)
    requires target != []
    requires forall i :: 0 <= i <= |s| ==> !OccursAt(s, target, i)
    ensures Replace(s, target, repl) == s
    decreases |s|
  {
    if s != [] {
      assert !OccursAt(s, target, 0);
      forall i | 0 <= i <= |s[1..]|
        ensures OccursAt(s[1..], target, i) ==> OccursAt(s, target, i + 1)
      {
        if i + |target| <= |s[1..]| {
          assert s[1..][i..i + |target|] == s[i + 1..i + 1 + |target|];
        }
      }
      ReplaceAbsent(s[1..], target, repl);
    }
  }

  /** An occurrence starts with the first character of `sub`. */
  lemma OccursHead(s: string, sub: string, i: nat)
    requires sub != []
    ensures OccursAt(s, sub, i) ==> i < |s| && s[i] == sub[0]
  {
    if OccursAt(s, sub, i) {
      assert s[i..i + |sub|][0] == s[i];
    }
  }

  /** Removing a text written once at the end of a prefix that holds
      none of its first character leaves the prefix. */
  lemma {:induction false} ReplaceTail(pre: string, u: string)
    requires u != []
    requires forall i :: 0 <= i < |pre| ==> pre[i] != u[0]
    ensures Replace(pre + u, u, "") == pre
    decreases |pre|
  {
    var s := pre + u;
    if pre == [] {
      assert s == u && OccursAt(u, u, 0) && u[|u|..] == [];
    } else {
      OccursHead(s, u, 0);
      ReplaceTail(pre[1..], u);
      assert s[1..] == pre[1..] + u;
    }
  }

  // ---------------------------------------------------------------------
  // strip, rstrip, split, join
  // ---------------------------------------------------------------------

  function StripRight(s: string): (r: string)
    ensures |r| <= |s| && r == s[..|r|]
    ensures r == [] || !IsSpace(r[|r| - 1])
    ensures forall i :: |r| <= i < |s| ==> IsSpace(s[i])
  {
    if s != [] && IsSpace(s[|s| - 1]) then StripRight(s[..|s| - 1]) else s
  }

  /** Length of the run of whitespace at the start of `s`. */
  function LeadingSpace(s: string): (n: nat)
    ensures n <= |s|
    ensures forall k :: 0 <= k < n ==> IsSpace(s[k])
    ensures n == |s| || !IsSpace(s[n])
  {
    if s != [] && IsSpace(s[0]) then 1 + LeadingSpace(s[1..]) else 0
  }

  /** `s.strip()`: the leading whitespace is dropped, then the trailing
      whitespace.  What is left is the slice of `s` after its leading
      whitespace, and all that is cut after it is whitespace. */
  function Strip(s: string): (r: string)
    ensures r == [] || (!IsSpace(r[0]) && !IsSpace(r[|r| - 1]))
    ensures NoSpace(s) ==> r == s
    ensures LeadingSpace(s) + |r| <= |s| && r == s[LeadingSpace(s)..LeadingSpace(s) + |r|]
    ensures forall k :: LeadingSpace(s) + |r| <= k < |s| ==> IsSpace(s[k])
  {
    var i := LeadingSpace(s);
    var t := s[i..];
    var r := StripRight(t);
    assert r == s[i..i + |r|];
    assert r != [] ==> r[0] == t[0] == s[i];
    assert forall k :: i + |r| <= k < |s| ==> s[k] == t[k - i];
    assert NoSpace(s) ==> i == 0 && t == s && |r| == |t|;
    r
  }

  /** `s.rstrip(chars)`: the whole trailing run of characters from `cs`
      is removed. */
  function RStrip(s: string, cs: set<char>): (r: string)
    ensures |r| <= |s| && r == s[..|r|]
    ensures r == [] || r[|r| - 1] !in cs
    ensures forall i :: |r| <= i < |s| ==> s[i] in cs
  {
    if s != [] && s[|s| - 1] in cs then RStrip(s[..|s| - 1], cs) else s
  }

  /** Length of the run of non-whitespace characters at the start of `s`. */
  function WordLength(s: string): (n: nat)
    ensures n <= |s| && NoSpace(s[..n])
    ensures n == |s| || IsSpace(s[n])
  {
    if s == [] || IsSpace(s[0]) then 0 else 1 + WordLength(s[1..])
  }

  /** `w` is a word of `s` starting at `i`: non-empty, free of whitespace,
      and followed by whitespace or the end of `s`. */
  predicate WordAt(s: string, i: nat, w: string) {
    && w != [] && NoSpace(w)
    && i + |w| <= |s| && s[i..i + |w|] == w
    && (i + |w| == |s| || IsSpace(s[i + |w|]))
  }

  /** `ws` are the words of `s`: after the leading whitespace comes the
      first word, and the rest of `s` has the remaining words; with no
      word left, `s` is all whitespace. */
  predicate Words(s: string, ws: seq<string>)
    decreases |ws|
  {
    var i := LeadingSpace(s);
    if ws == [] then i == |s|
    else WordAt(s, i, ws[0]) && Words(s[i + |ws[0]|..], ws[1..])
  }

  /** A word stays a word when a character is put in front of the text. */
  lemma WordAtShift(c: char, s: string, i: nat, w: string)
    ensures WordAt([c] + s, i + 1, w) <==> WordAt(s, i, w)
  {
    var t := [c] + s;
    if i + |w| <= |s| {
      assert t[i + 1..i + 1 + |w|] == s[i..i + |w|];
      assert i + |w| < |s| ==> t[i + 1 + |w|] == s[i + |w|];
    }
  }

  /** A leading whitespace character does not change the words. */
  lemma WordsAfterSpace(c: char, s: string, ws: seq<string>)
    requires IsSpace(c) && Words(s, ws)
    ensures Words([c] + s, ws)
  {
    var t := [c] + s;
    var i := LeadingSpace(s);
    assert LeadingSpace(t) == 1 + i by {
      assert t[1..] == s;
    }
    if ws != [] {
      var w := ws[0];
      WordAtShift(c, s, i, w);
      var j := i + |w|;
      if j <= |s| {
        assert t[1 + j..] == s[j..];
      }
    }
  }

  /** `s.split()`: the maximal runs of non-whitespace characters. */
  function SplitWords(s: string): (ws: seq<string>)
    ensures AllWords(ws)
    ensures Words(s, ws)
    decreases |s|
  {
    if s == [] then []
    else if IsSpace(s[0]) then
      var ws := SplitWords(s[1..]);
      assert s == [s[0]] + s[1..];
      WordsAfterSpace(s[0], s[1..], ws);
      ws
    else
      var n := WordLength(s);
      var rest := SplitWords(s[n..]);
      var ws := [s[..n]] + rest;
      assert ws[1..] == rest;
      assert LeadingSpace(s) == 0;
      assert s[0..n] == s[..n];
      assert forall k :: 0 < k < |ws| ==> ws[k] == rest[k - 1];
      ws
  }

  /** Only one word of `s` starts at a given position. */
  lemma WordAtUnique(s: string, i: nat, a: string, b: string)
    requires WordAt(s, i, a) && WordAt(s, i, b)
    ensures a == b
  {
    assert forall k :: i <= k < i + |a| ==> s[k] == a[k - i];
    assert forall k :: i <= k < i + |b| ==> s[k] == b[k - i];
    if |a| != |b| {
      // the shorter word ends at whitespace inside the longer one
      assert false;
    }
  }

  /** A text that is all whitespace has no words. */
  lemma NoWordsInSpace(s: string, ws: seq<string>)
    requires Words(s, ws) && LeadingSpace(s) == |s|
    ensures ws == []
  {
  }

  /** The words of a text are unique. */
  lemma {:induction false} WordsUnique(s: string, ws: seq<string>, vs: seq<string>)
    requires Words(s, ws) && Words(s, vs)
    ensures ws == vs
    decreases |ws|
  {
    var i := LeadingSpace(s);
    if ws == [] {
      NoWordsInSpace(s, vs);
    } else if vs == [] {
      NoWordsInSpace(s, ws);
    } else {
      WordAtUnique(s, i, ws[0], vs[0]);
      var j := i + |ws[0]|;
      assert j == i + |vs[0]|;
      WordsUnique(s[j..], ws[1..], vs[1..]);
      assert ws == [ws[0]] + ws[1..] && vs == [vs[0]] + vs[1..];
    }
  }

  /** A one-word text has that word. */
  lemma WordsSingle(w: string)
    requires w != [] && NoSpace(w)
    ensures Words(w, [w])
  {
    assert LeadingSpace(w) == 0;
    assert w[0..|w|] == w;
    assert LeadingSpace(w[|w|..]) == 0;
  }

  /** A word, a space and a text have that word followed by the text's. */
  lemma WordsCons(w: string, rest: string, vs: seq<string>)
    requires w != [] && NoSpace(w) && Words(rest, vs)
    ensures Words(w + " " + rest, [w] + vs)
  {
    var t, ws := w + " " + rest, [w] + vs;
    assert ws[0] == w && ws[1..] == vs;
    assert t[0..|w|] == w && t[|w|..] == [' '] + rest;
    assert LeadingSpace(t) == 0 by {
      assert t[0] == w[0];
    }
    assert WordAt(t, 0, w);
    WordsAfterSpace(' ', rest, vs);
  }

  /** Every one of `ws` is a non-empty run without whitespace. */
  predicate AllWords(ws: seq<string>) {
    forall k :: 0 <= k < |ws| ==> ws[k] != [] && NoSpace(ws[k])
  }

  /** `' '.join(ws)`: joining words free of whitespace gives a text whose
      words are exactly `ws`. */
  function JoinSpace(ws: seq<string>): (r: string)
    ensures AllWords(ws) ==> Words(r, ws)
  {
    if ws == [] then []
    else if |ws| == 1 then
      assert AllWords(ws) ==> Words(ws[0], ws) by {
        if AllWords(ws) {
          WordsSingle(ws[0]);
        }
      }
      ws[0]
    else
      var rest := JoinSpace(ws[1..]);
      assert AllWords(ws) ==> Words(ws[0] + " " + rest, ws) by {
        if AllWords(ws) {
          assert AllWords(ws[1..]) by {
            assert forall k :: 0 <= k < |ws[1..]| ==> ws[1..][k] == ws[k + 1];
          }
          WordsCons(ws[0], rest, ws[1..]);
          assert [ws[0]] + ws[1..] == ws;
        }
      }
      ws[0] + " " + rest
  }

  /** `' '.join` and `split()` are inverse on words free of whitespace. */
  lemma SplitJoin(ws: seq<string>)
    requires AllWords(ws)
    ensures SplitWords(JoinSpace(ws)) == ws
  {
    WordsUnique(JoinSpace(ws), SplitWords(JoinSpace(ws)), ws);
  }
}
