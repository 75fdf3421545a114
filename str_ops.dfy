/** The three Rust string routines the search relies on, as used by
    src/lib.rs: `str::contains` with a string pattern, `str::lines` and
    lowercasing. Strings are sequences of characters. */
module StrOps {

  // ---------------------------------------------------------------------
  // Substring containment (`str::contains`)
  // ---------------------------------------------------------------------

  /** `pat` occurs in `text` starting at position `i`. */
  predicate OccursAt(pat: string, text: string, i: int)
  {
    0 <= i && i + |pat| <= |text| && text[i..i + |pat|] == pat
  }

  /** `text` contains `pat` as a contiguous substring. The empty pattern is
      contained in every text, and a pattern longer than the text in none. */
  predicate Contains(text: string, pat: string)
    ensures pat == [] ==> Contains(text, pat)
    ensures Contains(text, pat) ==> |pat| <= |text|
  {
    assert pat == [] ==> OccursAt(pat, text, 0);
    exists i :: 0 <= i <= |text| - |pat| && OccursAt(pat, text, i)
  }

  /** A pattern whose first character is absent from the text does not occur in it. */
  lemma FirstCharAbsent(text: string, pat: string)
    requires pat != [] && pat[0] !in text
    ensures !Contains(text, pat)
  {
  }

  // ---------------------------------------------------------------------
  // Lowercasing, one character at a time
  // ---------------------------------------------------------------------

  predicate IsAsciiUpper(c: char)
  {
    'A' <= c <= 'Z'
  }

  /** ASCII lowercasing of one character; every other character is unchanged. */
  function LowerChar(c: char): (d: char)
    ensures !IsAsciiUpper(d)
    ensures !IsAsciiUpper(c) ==> d == c
  {
    if IsAsciiUpper(c) then (c as int + 32) as char else c
  }

  /** The string with each character lowercased on its own. */
  function Lower(s: string): (r: string)
    ensures |r| == |s|
    ensures forall i :: 0 <= i < |s| ==> r[i] == LowerChar(s[i])
  {
    seq(|s|, i requires 0 <= i < |s| => LowerChar(s[i]))
  }

  /** A lowercased string has no upper-case ASCII letter left, and lowercasing it again changes nothing. */
  lemma LowerIdempotent(s: string)
    ensures forall i :: 0 <= i < |s| ==> !IsAsciiUpper(Lower(s)[i])
    ensures Lower(Lower(s)) == Lower(s)
  {
  }

  /** Lowercasing commutes with taking a slice. */
  lemma LowerSlice(s: string, i: int, j: int)
    requires 0 <= i <= j <= |s|
    ensures Lower(s[i..j]) == Lower(s)[i..j]
  {
  }

  /** Lowercasing keeps every occurrence: a per-character map preserves substrings. */
  lemma ContainsLower(text: string, pat: string)
    requires Contains(text, pat)
    ensures Contains(Lower(text), Lower(pat))
  {
    var i :| 0 <= i <= |text| - |pat| && OccursAt(pat, text, i);
    LowerSlice(text, i, i + |pat|);
    assert OccursAt(Lower(pat), Lower(text), i);
  }

  // ---------------------------------------------------------------------
  // Line splitting (`str::lines`)
  // ---------------------------------------------------------------------

  /** Position of the first '\n' in `s`, or `|s|` when there is none. */
  function NewlineIndex(s: string): (k: nat)
    ensures k <= |s|
    ensures k < |s| ==> s[k] == '\n'
    ensures forall j :: 0 <= j < k ==> s[j] != '\n'
    decreases |s|
  {
    if s == [] || s[0] == '\n' then 0 else 1 + NewlineIndex(s[1..])
  }

  predicate EndsWithCR(s: string)
  {
    |s| > 0 && s[|s| - 1] == '\r'
  }

  /** Removes one trailing '\r', the first half of a "\r\n" line break. */
  function StripCR(s: string): (t: string)
    ensures t == s || t + "\r" == s
  {
    if EndsWithCR(s) then s[..|s| - 1] else s
  }

  /** The lines of `s`: the text between '\n' breaks, each losing one '\r'
      just before its '\n'; a final break adds no empty line and `""` has no
      lines. A final line that has no '\n' after it keeps a trailing '\r'. */
  function Lines(s: string): (ls: seq<string>)
    ensures s == [] <==> ls == []
    ensures forall i :: 0 <= i < |ls| ==> '\n' !in ls[i]
    decreases |s|
  {
    if s == [] then []
    else
      var k := NewlineIndex(s);
      if k == |s| then [s]
      else [StripCR(s[..k])] + Lines(s[k + 1..])
  }

  /** The line break "\r\n" when `crlf` holds, "\n" otherwise. */
  function Break(crlf: bool): string
  {
    if crlf then "\r\n" else "\n"
  }

  /** The lines `ls`, line `i` followed by the break `Break(crlf[i])`. */
  function Joined(ls: seq<string>, crlf: seq<bool>): (s: string)
    requires |crlf| == |ls|
    ensures |ls| <= |s|
  {
    if ls == [] then [] else ls[0] + Break(crlf[0]) + Joined(ls[1..], crlf[1..])
  }

  /** The lines `ls` and breaks `crlf` can be split apart again: no line holds
      a '\n', and a line followed by a bare "\n" does not end in '\r'. */
  predicate Splittable(ls: seq<string>, crlf: seq<bool>)
  {
    |crlf| == |ls| &&
    forall i :: 0 <= i < |ls| ==> '\n' !in ls[i] && (!crlf[i] ==> !EndsWithCR(ls[i]))
  }

  /** A string may be broken into lines at its breaks: the first break in
      `a + "\n" + b`, when `a` has none, is right after `a`. */
  lemma {:induction false} NewlineAfter(a: string, b: string)
    requires '\n' !in a
    ensures NewlineIndex(a + "\n" + b) == |a|
    decreases |a|
  {
    if a != [] {
      assert (a + "\n" + b)[1..] == a[1..] + "\n" + b;
      NewlineAfter(a[1..], b);
    }
  }

  /** The first line of `a + "\n" + rest`, when `a` has no break, is `a` less one trailing '\r'. */
  lemma LinesCons(a: string, rest: string)
    requires '\n' !in a
    ensures Lines(a + "\n" + rest) == [StripCR(a)] + Lines(rest)
  {
    var s := a + "\n" + rest;
    NewlineAfter(a, rest);
    assert s[..|a|] == a;
    assert s[|a| + 1..] == rest;
  }

  /** A line followed by its break is the line, its own '\r' if the break is "\r\n", then '\n'. */
  lemma JoinedCons(ls: seq<string>, crlf: seq<bool>, last: string)
    requires Splittable(ls, crlf) && ls != []
    ensures '\n' !in (if crlf[0] then ls[0] + "\r" else ls[0])
    ensures StripCR(if crlf[0] then ls[0] + "\r" else ls[0]) == ls[0]
    ensures Joined(ls, crlf) + last ==
      (if crlf[0] then ls[0] + "\r" else ls[0]) + "\n" + (Joined(ls[1..], crlf[1..]) + last)
  {
    assert '\n' !in ls[0];
    if crlf[0] {
      assert (ls[0] + "\r")[..|ls[0]|] == ls[0];
    }
  }

  /** Splitting undoes joining, whatever mix of "\n" and "\r\n" breaks is used:
      the lines come back unchanged, and text after the last break, if any, is
      one more line, kept as it is even when it ends in '\r'. */
  lemma {:induction false} LinesOfJoined(ls: seq<string>, crlf: seq<bool>, last: string)
    requires Splittable(ls, crlf) && '\n' !in last
    ensures Lines(Joined(ls, crlf) + last) == ls + (if last == [] then [] else [last])
    decreases |ls|
  {
    var tail := if last == [] then [] else [last];
    if ls == [] {
      assert Joined(ls, crlf) + last == last;
      assert '\n' !in last;
    } else {
      var a := if crlf[0] then ls[0] + "\r" else ls[0];
      var rest := Joined(ls[1..], crlf[1..]) + last;
      JoinedCons(ls, crlf, last);
      LinesCons(a, rest);
      assert Splittable(ls[1..], crlf[1..]);
      LinesOfJoined(ls[1..], crlf[1..], last);
      calc {
        Lines(Joined(ls, crlf) + last);
        Lines(a + "\n" + rest);
        [ls[0]] + Lines(rest);
        [ls[0]] + (ls[1..] + tail);
        { assert ls == [ls[0]] + ls[1..]; }
        ls + tail;
      }
    }
  }

  /** The text before the first '\n' of `s` is a line, followed by its own
      '\r' when the break is "\r\n". */
  lemma FirstLine(s: string) returns (cr: bool, line: string)
    requires NewlineIndex(s) < |s|
    ensures '\n' !in line && (!cr ==> !EndsWithCR(line))
    ensures s == (if cr then line + "\r" else line) + "\n" + s[NewlineIndex(s) + 1..]
  {
    var k := NewlineIndex(s);
    var a := s[..k];
    assert s == a + "\n" + s[k + 1..];
    cr, line := EndsWithCR(a), StripCR(a);
    assert a == (if cr then line + "\r" else line);
  }

  /** A line that may precede its break keeps lines and breaks splittable. */
  lemma SplittableCons(line: string, cr: bool, ls: seq<string>, crlf: seq<bool>)
    requires Splittable(ls, crlf) && '\n' !in line && (!cr ==> !EndsWithCR(line))
    ensures Splittable([line] + ls, [cr] + crlf)
  {
    var ls', crlf' := [line] + ls, [cr] + crlf;
    forall i | 0 <= i < |ls'| ensures '\n' !in ls'[i] && (!crlf'[i] ==> !EndsWithCR(ls'[i])) {
      if i > 0 {
        assert ls'[i] == ls[i - 1] && crlf'[i] == crlf[i - 1];
      }
    }
  }

  /** Every string is lines joined by breaks, followed by a last piece without
      a break; so `LinesOfJoined` describes `Lines` on every input. */
  lemma {:induction false} SplitForm(s: string) returns (ls: seq<string>, crlf: seq<bool>, last: string)
    ensures Splittable(ls, crlf) && '\n' !in last
    ensures s == Joined(ls, crlf) + last
    ensures Lines(s) == ls + (if last == [] then [] else [last])
    decreases |s|
  {
    var k := NewlineIndex(s);
    if k == |s| {
      ls, crlf, last := [], [], s;
      assert s == Joined(ls, crlf) + last;
    } else {
      var ls', crlf', last' := SplitForm(s[k + 1..]);
      var cr, line := FirstLine(s);
      ls, crlf, last := [line] + ls', [cr] + crlf', last';
      SplittableCons(line, cr, ls', crlf');
      assert ls[1..] == ls' && crlf[1..] == crlf';
      JoinedCons(ls, crlf, last);
    }
    LinesOfJoined(ls, crlf, last);
  }

  /** Splitting undoes joining with "\n": lines that hold no '\n' and do not end in '\r' come back unchanged. */
  lemma LinesOfTerminated(ls: seq<string>)
    requires forall i :: 0 <= i < |ls| ==> '\n' !in ls[i] && !EndsWithCR(ls[i])
    ensures Lines(Joined(ls, seq(|ls|, _ => false))) == ls
  {
    var crlf := seq(|ls|, _ => false);
    LinesOfJoined(ls, crlf, []);
    assert Joined(ls, crlf) + [] == Joined(ls, crlf);
  }

  /** Splitting undoes joining with "\r\n": every line that holds no '\n' comes back unchanged, even one ending in '\r'. */
  lemma LinesOfCrlfTerminated(ls: seq<string>)
    requires forall i :: 0 <= i < |ls| ==> '\n' !in ls[i]
    ensures Lines(Joined(ls, seq(|ls|, _ => true))) == ls
  {
    var crlf := seq(|ls|, _ => true);
    LinesOfJoined(ls, crlf, []);
    assert Joined(ls, crlf) + [] == Joined(ls, crlf);
  }

  /** Mixed breaks, and a last line without a break that keeps its '\r'. */
  lemma MixedBreaks()
    ensures Lines("a" + "\n" + "b" + "\r\n" + "c\r") == ["a", "b", "c\r"]
  {
    var ls, crlf := ["a", "b"], [false, true];
    assert Joined(ls[1..][1..], crlf[1..][1..]) == [];
    assert Joined(ls[1..], crlf[1..]) == "b" + "\r\n";
    assert Joined(ls, crlf) == "a" + "\n" + ("b" + "\r\n");
    LinesOfJoined(ls, crlf, "c\r");
    assert Joined(ls, crlf) + "c\r" == "a" + "\n" + "b" + "\r\n" + "c\r";
    assert ls + ["c\r"] == ["a", "b", "c\r"];
  }

  /** The final line break is optional: adding one after a last line that does not end in '\r' changes nothing. */
  lemma {:induction false} FinalNewlineOptional(s: string)
    requires s != [] && s[|s| - 1] != '\n' && s[|s| - 1] != '\r'
    ensures Lines(s + "\n") == Lines(s)
    decreases |s|
  {
    var t := s + "\n";
    var k := NewlineIndex(s);
    if k == |s| {
      NewlineAfter(s, []);
      assert t[..k] == s;
      assert t[k + 1..] == [];
    } else {
      assert NewlineIndex(t) == k by {
        assert t[..k + 1] == s[..k + 1];
        NewlineIndexPrefix(s, t, k);
      }
      assert t[..k] == s[..k];
      assert t[k + 1..] == s[k + 1..] + "\n";
      FinalNewlineOptional(s[k + 1..]);
    }
  }

  /** The first break is found from the part of the string up to and including it. */
  lemma NewlineIndexPrefix(s: string, t: string, k: nat)
    requires k < |s| && k < |t| && s[..k + 1] == t[..k + 1] && NewlineIndex(s) == k
    ensures NewlineIndex(t) == k
  {
  }

  /** Every line is a verbatim piece of the text: it occurs in it. */
  lemma {:induction false} LinesOccur(s: string)
    ensures forall i :: 0 <= i < |Lines(s)| ==> Contains(s, Lines(s)[i])
    decreases |s|
  {
    if s != [] {
      var k := NewlineIndex(s);
      if k == |s| {
        assert OccursAt(s, s, 0);
      } else {
        var rest := s[k + 1..];
        LinesOccur(rest);
        var ls := Lines(s);
        forall i | 0 <= i < |ls| ensures Contains(s, ls[i]) {
          if i == 0 {
            assert OccursAt(ls[0], s, 0);
          } else {
            assert ls[i] == Lines(rest)[i - 1];
            var j :| 0 <= j <= |rest| - |ls[i]| && OccursAt(ls[i], rest, j);
            assert s[k + 1 + j..k + 1 + j + |ls[i]|] == rest[j..j + |ls[i]|];
            assert OccursAt(ls[i], s, k + 1 + j);
          }
        }
      }
    }
  }
}
