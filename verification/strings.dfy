/** Text operations of Rust's standard library that the generator relies on:
    `join` of a list of lines, `split` at a character, and `str::replace`. */
module Strings {

  /** `parts.join(sep)`: the parts with `sep` between consecutive parts. */
  function Join(parts: seq<string>, sep: string): string
  {
    if |parts| == 0 then ""
    else if |parts| == 1 then parts[0]
    else parts[0] + sep + Join(parts[1..], sep)
  }

  /** `s.split(c)`: the maximal pieces of `s` between occurrences of `c`. */
  function Split(s: string, c: char): (pieces: seq<string>)
    ensures |pieces| >= 1
    ensures forall i :: 0 <= i < |pieces| ==> c !in pieces[i]
  {
    if s == "" then [""]
    else
      var rest := Split(s[1..], c);
      if s[0] == c then [""] + rest
      else [[s[0]] + rest[0]] + rest[1..]
  }

  /** Splitting a text with no separator in its head keeps that head on the first piece. */
  lemma {:induction false} SplitPrefix(a: string, t: string, c: char)
    requires c !in a
    ensures Split(a + t, c) == [a + Split(t, c)[0]] + Split(t, c)[1..]
  {
    if a != "" {
      assert (a + t)[1..] == a[1..] + t;
      SplitPrefix(a[1..], t, c);
      assert [a[0]] + (a[1..] + Split(t, c)[0]) == a + Split(t, c)[0];
    } else {
      var pieces := Split(t, c);
      assert a + t == t && a + pieces[0] == pieces[0];
      assert pieces == [pieces[0]] + pieces[1..];
    }
  }

  /** Joining lines that hold no separator and splitting the result again gives the lines back. */
  lemma {:induction false} SplitJoin(lines: seq<string>, c: char)
    requires |lines| >= 1
    requires forall i :: 0 <= i < |lines| ==> c !in lines[i]
    ensures Split(Join(lines, [c]), c) == lines
  {
    if |lines| == 1 {
      SplitPrefix(lines[0], "", c);
      assert lines[0] + "" == lines[0];
    } else {
      var tail := Join(lines[1..], [c]);
      assert Join(lines, [c]) == lines[0] + ([c] + tail);
      SplitPrefix(lines[0], [c] + tail, c);
      assert ([c] + tail)[1..] == tail;
      SplitJoin(lines[1..], c);
      var rest := Split([c] + tail, c);
      assert rest == [""] + Split(tail, c);
      assert rest[0] == "" && rest[1..] == lines[1..];
      assert lines[0] + rest[0] == lines[0];
      assert lines == [lines[0]] + lines[1..];
    }
  }

  /** Splitting and joining again restores any text. */
  lemma {:induction false} JoinSplit(s: string, c: char)
    ensures Join(Split(s, c), [c]) == s
  {
    if s != "" {
      var rest := Split(s[1..], c);
      JoinSplit(s[1..], c);
      if s[0] == c {
        assert Split(s, c) == [""] + rest;
        assert ([""] + rest)[1..] == rest;
      } else {
        var pieces := [[s[0]] + rest[0]] + rest[1..];
        assert Split(s, c) == pieces;
        if |rest| == 1 {
          assert s == [s[0]] + rest[0];
        } else {
          assert pieces[1..] == rest[1..];
          assert Join(rest, [c]) == rest[0] + [c] + Join(rest[1..], [c]);
          assert s == [s[0]] + s[1..];
        }
      }
    }
  }

  /** The last character of a join is the last character of the last part, when that part is non-empty. */
  lemma {:induction false} JoinLast(parts: seq<string>, sep: string)
    requires |parts| >= 1 && parts[|parts| - 1] != ""
    ensures |Join(parts, sep)| >= 1
    ensures Join(parts, sep)[|Join(parts, sep)| - 1] == parts[|parts| - 1][|parts[|parts| - 1]| - 1]
  {
    if |parts| > 1 {
      JoinLast(parts[1..], sep);
    }
  }

  /** `pat` occurs in `s` starting at `k`. */
  predicate OccursAt(s: string, pat: string, k: nat)
  {
    k <= |s| && pat <= s[k..]
  }

  /** `pat` occurs somewhere in `s`. */
  predicate Occurs(s: string, pat: string)
  {
    exists k: nat :: k <= |s| && OccursAt(s, pat, k)
  }

  /** `s.replace(pat, rep)`: scanning left to right, every non-overlapping
      occurrence of the non-empty `pat` is replaced by `rep`. */
  function Replace(s: string, pat: string, rep: string): string
    requires pat != ""
  {
    if s == "" then ""
    else if pat <= s then rep + Replace(s[|pat|..], pat, rep)
    else [s[0]] + Replace(s[1..], pat, rep)
  }

  /** Text ahead of the leftmost occurrence is copied unchanged. */
  lemma {:induction false} ReplaceSkips(a: string, b: string, pat: string, rep: string)
    requires pat != ""
    requires forall k: nat :: k < |a| ==> !OccursAt(a + b, pat, k)
    ensures Replace(a + b, pat, rep) == a + Replace(b, pat, rep)
  {
    if a != "" {
      assert !OccursAt(a + b, pat, 0);
      assert (a + b)[0..] == a + b;
      assert (a + b)[1..] == a[1..] + b;
      forall k: nat | k < |a[1..]|
        ensures !OccursAt(a[1..] + b, pat, k)
      {
        assert !OccursAt(a + b, pat, k + 1);
        assert (a + b)[k + 1..] == (a[1..] + b)[k..];
      }
      ReplaceSkips(a[1..], b, pat, rep);
      assert a == [a[0]] + a[1..];
    } else {
      assert a + b == b;
    }
  }

  /** A text in which `pat` never occurs comes back unchanged. */
  lemma ReplaceNoOccurrence(s: string, pat: string, rep: string)
    requires pat != ""
    requires !Occurs(s, pat)
    ensures Replace(s, pat, rep) == s
  {
    assert s + "" == s;
    forall k: nat | k < |s| ensures !OccursAt(s + "", pat, k) {
      assert !OccursAt(s, pat, k);
    }
    ReplaceSkips(s, "", pat, rep);
  }

  /** An occurrence at the front is replaced and the scan resumes after it. */
  lemma ReplaceAtFront(b: string, pat: string, rep: string)
    requires pat != "" && pat <= b
    ensures Replace(b, pat, rep) == rep + Replace(b[|pat|..], pat, rep)
  {
  }

  /** The leftmost occurrence is replaced and the scan resumes right after it. */
  lemma ReplaceLeftmost(s: string, pat: string, rep: string, k: nat)
    requires pat != ""
    requires OccursAt(s, pat, k)
    requires forall j: nat :: j < k ==> !OccursAt(s, pat, j)
    ensures Replace(s, pat, rep) == s[..k] + rep + Replace(s[k + |pat|..], pat, rep)
  {
    var a, b := s[..k], s[k..];
    assert s == a + b;
    forall j: nat | j < |a| ensures !OccursAt(a + b, pat, j) {
      assert !OccursAt(s, pat, j);
    }
    ReplaceSkips(a, b, pat, rep);
    ReplaceAtFront(b, pat, rep);
    assert b[|pat|..] == s[k + |pat|..];
  }

  /** Replacing one character by another maps the text character by character. */
  lemma {:induction false} ReplaceChar(s: string, c: char, d: char)
    ensures |Replace(s, [c], [d])| == |s|
    ensures forall i :: 0 <= i < |s| ==>
      Replace(s, [c], [d])[i] == (if s[i] == c then d else s[i])
  {
    if s != "" {
      ReplaceChar(s[1..], c, d);
      assert [c] <= s <==> s[0] == c;
    }
  }

  /** Replacing a single character distributes over concatenation. */
  lemma ReplaceCharAppend(a: string, b: string, c: char, d: char)
    ensures Replace(a + b, [c], [d]) == Replace(a, [c], [d]) + Replace(b, [c], [d])
  {
    ReplaceChar(a + b, c, d);
    ReplaceChar(a, c, d);
    ReplaceChar(b, c, d);
  }
}
