/**
 * The pieces of Go's `strings` package that the tool relies on, restricted to
 * ASCII: `TrimSpace`, `Split(s, "\n")`, `Fields` and `HasPrefix` (the last is
 * Dafny's built-in prefix test `p <= s`).
 */
module Text {

  /** ASCII white space as seen by Go's `unicode.IsSpace`: space, \t, \n, \v, \f, \r. */
  predicate IsSpace(c: char) {
    c == ' ' || c == '\t' || c == '\n' || c == '\U{B}' || c == '\U{C}' || c == '\r'
  }

  predicate NoSpace(s: string) {
    forall i :: 0 <= i < |s| ==> !IsSpace(s[i])
  }

  predicate AllSpace(s: string) {
    forall i :: 0 <= i < |s| ==> IsSpace(s[i])
  }

  // ---------------------------------------------------------------- TrimSpace

  /** Drops the leading white space (TrimLeftSpec says what remains). */
  function TrimLeft(s: string): string
  {
    if |s| > 0 && IsSpace(s[0]) then TrimLeft(s[1..]) else s
  }

  /** Drops the trailing white space (TrimRightSpec says what remains). */
  function TrimRight(s: string): string
  {
    if |s| > 0 && IsSpace(s[|s| - 1]) then TrimRight(s[..|s| - 1]) else s
  }

  /** Go's `strings.TrimSpace` on ASCII text (TrimSpaceFactor says which part of `s` remains). */
  function TrimSpace(s: string): string
  {
    TrimRight(TrimLeft(s))
  }

  /** What `TrimLeft` keeps is the suffix of `s` that starts at its first non-space. */
  lemma {:induction false} TrimLeftSpec(s: string)
    ensures var r := TrimLeft(s);
      && |r| <= |s| && r == s[|s| - |r|..]
      && (forall i :: 0 <= i < |s| - |r| ==> IsSpace(s[i]))
      && (|r| > 0 ==> !IsSpace(r[0]))
  {
    if |s| > 0 && IsSpace(s[0]) {
      TrimLeftSpec(s[1..]);
      var r := TrimLeft(s[1..]);
      assert s[1..][|s| - 1 - |r|..] == s[|s| - |r|..];
      forall i | 0 < i < |s| - |r| ensures IsSpace(s[i]) {
        assert s[i] == s[1..][i - 1];
      }
    }
  }

  /** What `TrimRight` keeps is the prefix of `s` that ends at its last non-space. */
  lemma {:induction false} TrimRightSpec(s: string)
    ensures var r := TrimRight(s);
      && |r| <= |s| && r == s[..|r|]
      && (forall i :: |r| <= i < |s| ==> IsSpace(s[i]))
      && (|r| > 0 ==> !IsSpace(r[|r| - 1]))
  {
    if |s| > 0 && IsSpace(s[|s| - 1]) {
      var t := s[..|s| - 1];
      TrimRightSpec(t);
      var r := TrimRight(t);
      assert t[..|r|] == s[..|r|];
      forall i | |r| <= i < |s| - 1 ensures IsSpace(s[i]) {
        assert s[i] == t[i];
      }
    }
  }

  /**
   * The trimmed text is the factor of `s` between a blank prefix and a blank
   * suffix, and it neither starts nor ends with white space.
   */
  lemma TrimSpaceFactor(s: string)
    ensures var r, i := TrimSpace(s), |s| - |TrimLeft(s)|;
      && 0 <= i && i + |r| <= |s| && r == s[i..i + |r|]
      && (forall k :: 0 <= k < i ==> IsSpace(s[k]))
      && (forall k :: i + |r| <= k < |s| ==> IsSpace(s[k]))
      && (|r| > 0 ==> !IsSpace(r[0]) && !IsSpace(r[|r| - 1]))
  {
    var l := TrimLeft(s);
    TrimLeftSpec(s);
    TrimRightSpec(l);
    var r := TrimRight(l);
    var i := |s| - |l|;
    assert l == s[i..];
    assert r == l[..|r|];
    assert |r| > 0 ==> r[0] == l[0];
    forall k | i + |r| <= k < |s| ensures IsSpace(s[k]) {
      assert s[k] == l[k - i];
    }
  }

  /** Trimming leaves nothing exactly when the text is all white space. */
  lemma TrimSpaceEmpty(s: string)
    ensures |TrimSpace(s)| == 0 <==> AllSpace(s)
  {
    var l := TrimLeft(s);
    TrimLeftSpec(s);
    TrimRightSpec(l);
    var i := |s| - |l|;
    assert |l| > 0 ==> l[0] == s[i];
    if |TrimRight(l)| == 0 {
      assert s == s[..i] + l;
    }
  }

  /** Text with non-blank characters at both ends is left alone. */
  lemma TrimSpaceKeeps(s: string)
    requires |s| > 0 && !IsSpace(s[0]) && !IsSpace(s[|s| - 1])
    ensures TrimSpace(s) == s
  {
  }

  // -------------------------------------------------------------------- Split

  /** Go's `strings.Split(s, "\n")`: the pieces between newlines, always at least one. */
  function Split(s: string): (r: seq<string>)
    ensures |r| >= 1
    ensures forall i :: 0 <= i < |r| ==> '\n' !in r[i]
  {
    if |s| == 0 then [""]
    else
      var rest := Split(s[1..]);
      if s[0] == '\n' then [""] + rest
      else [[s[0]] + rest[0]] + rest[1..]
  }

  /** `strings.Join(lines, "\n")`. */
  function Join(lines: seq<string>): string
  {
    if |lines| == 0 then ""
    else if |lines| == 1 then lines[0]
    else lines[0] + "\n" + Join(lines[1..])
  }

  /** A newline ends one line and starts the next. */
  lemma {:induction false} SplitConcat(a: string, b: string)
    ensures Split(a + "\n" + b) == Split(a) + Split(b)
  {
    if |a| == 0 {
      assert a + "\n" + b == ['\n'] + b;
      assert ("\n" + b)[1..] == b;
    } else {
      assert (a + "\n" + b)[1..] == a[1..] + "\n" + b;
      SplitConcat(a[1..], b);
    }
  }

  /** Text without a newline is a single line. */
  lemma {:induction false} SplitSingle(w: string)
    requires '\n' !in w
    ensures Split(w) == [w]
  {
    if |w| > 0 {
      SplitSingle(w[1..]);
      assert w == [w[0]] + w[1..];
    }
  }

  /** Two newlines in a row leave an empty line between the parts. */
  lemma SplitBlankBetween(a: string, b: string)
    ensures Split(a + "\n\n" + b) == Split(a) + [""] + Split(b)
  {
    assert a + "\n\n" + b == a + "\n" + ("" + "\n" + b);
    SplitConcat("", b);
    SplitConcat(a, "" + "\n" + b);
  }

  /** A single line, an empty line, then the lines of `b`. */
  lemma SplitHeader(a: string, b: string)
    requires '\n' !in a
    ensures Split(a + "\n\n" + b) == [a] + [""] + Split(b)
  {
    SplitBlankBetween(a, b);
    SplitSingle(a);
  }

  /** Text ending in a newline has an empty last line. */
  lemma SplitEndsInNewline(s: string)
    requires |s| > 0 && s[|s| - 1] == '\n'
    ensures Split(s) == Split(s[..|s| - 1]) + [""]
  {
    SplitConcat(s[..|s| - 1], "");
    assert s[..|s| - 1] + "\n" + "" == s;
  }

  /** One terminated line splits into the line and an empty remainder. */
  lemma SplitTerminated(w: string)
    requires '\n' !in w
    ensures Split(w + "\n") == [w, ""]
  {
    SplitSingle(w);
    SplitConcat(w, "");
    assert w + "\n" + "" == w + "\n";
  }

  /** Joining the lines of `s` gives `s` back. */
  lemma {:induction false} JoinSplit(s: string)
    ensures Join(Split(s)) == s
  {
    if |s| > 0 {
      var rest := Split(s[1..]);
      JoinSplit(s[1..]);
      if s[0] == '\n' {
        assert Split(s)[1..] == rest;
        assert s == "\n" + s[1..];
      } else {
        var r := Split(s);
        assert r[0] == [s[0]] + rest[0];
        if |rest| == 1 {
          assert s == [s[0]] + rest[0];
        } else {
          assert r[1..] == rest[1..];
          assert Join(rest) == rest[0] + "\n" + Join(rest[1..]);
          assert s == [s[0]] + s[1..];
        }
      }
    }
  }

  /** Splitting joined newline-free lines gives the lines back. */
  lemma {:induction false} SplitJoin(lines: seq<string>)
    requires |lines| >= 1
    requires forall i :: 0 <= i < |lines| ==> '\n' !in lines[i]
    ensures Split(Join(lines)) == lines
  {
    SplitSingle(lines[0]);
    if |lines| > 1 {
      SplitJoin(lines[1..]);
      SplitConcat(lines[0], Join(lines[1..]));
    }
  }

  // ------------------------------------------------------------------- Fields

  /** The longest prefix of `s` without white space. */
  function Word(s: string): (w: string)
    ensures w <= s && NoSpace(w)
    ensures |w| < |s| ==> IsSpace(s[|w|])
  {
    if |s| == 0 || IsSpace(s[0]) then "" else [s[0]] + Word(s[1..])
  }

  /** Go's `strings.Fields` on ASCII text: the maximal runs of non-space characters, in order. */
  function Fields(s: string): (r: seq<string>)
    ensures forall i :: 0 <= i < |r| ==> |r[i]| > 0 && NoSpace(r[i])
    decreases |s|
  {
    if |s| == 0 then []
    else if IsSpace(s[0]) then Fields(s[1..])
    else
      var w := Word(s);
      [w] + Fields(s[|w|..])
  }

  /** `strings.Join(words, " ")`. */
  function Unwords(words: seq<string>): string
  {
    if |words| == 0 then ""
    else if |words| == 1 then words[0]
    else words[0] + " " + Unwords(words[1..])
  }

  lemma {:induction false} WordThenSpace(w: string, rest: string)
    requires NoSpace(w)
    ensures Word(w + " " + rest) == w
    ensures Word(w) == w
  {
    if |w| > 0 {
      assert (w + " " + rest)[1..] == w[1..] + " " + rest;
      WordThenSpace(w[1..], rest);
      assert w == [w[0]] + w[1..];
    }
  }

  /** A word followed by a blank is the first field. */
  lemma FieldsCons(w: string, rest: string)
    requires |w| > 0 && NoSpace(w)
    ensures Fields(w + " " + rest) == [w] + Fields(rest)
    ensures Fields(w) == [w]
  {
    var s := w + " " + rest;
    WordThenSpace(w, rest);
    assert s[|w|..] == " " + rest;
    assert (" " + rest)[1..] == rest;
    assert w[|w|..] == [];
  }

  /** A space-free word followed by white space is the whole first word. */
  lemma {:induction false} WordBeforeBlank(w: string, rest: string)
    requires NoSpace(w) && |rest| > 0 && IsSpace(rest[0])
    ensures Word(w + rest) == w
  {
    if |w| > 0 {
      assert (w + rest)[1..] == w[1..] + rest;
      WordBeforeBlank(w[1..], rest);
      assert w == [w[0]] + w[1..];
    }
  }

  /** Leading white space contributes no field. */
  lemma {:induction false} FieldsSkipBlank(b: string, s: string)
    requires AllSpace(b)
    ensures Fields(b + s) == Fields(s)
  {
    if |b| > 0 {
      assert (b + s)[1..] == b[1..] + s;
      FieldsSkipBlank(b[1..], s);
    } else {
      assert b + s == s;
    }
  }

  /** Text made only of white space has no fields. */
  lemma FieldsAllSpace(s: string)
    requires AllSpace(s)
    ensures Fields(s) == []
  {
    FieldsSkipBlank(s, "");
    assert s + "" == s;
  }

  /** A word followed by any non-empty run of white space is the first field; the rest yields the others. */
  lemma FieldsWordBlank(w: string, b: string, s: string)
    requires |w| > 0 && NoSpace(w) && |b| > 0 && AllSpace(b)
    ensures Fields(w + b + s) == [w] + Fields(s)
  {
    var t := w + b + s;
    assert t == w + (b + s);
    WordBeforeBlank(w, b + s);
    assert t[|w|..] == b + s;
    FieldsSkipBlank(b, s);
  }

  /** Splitting blank-joined words into fields gives the words back. */
  lemma {:induction false} FieldsUnwords(words: seq<string>)
    requires forall i :: 0 <= i < |words| ==> |words[i]| > 0 && NoSpace(words[i])
    ensures Fields(Unwords(words)) == words
  {
    if |words| == 1 {
      FieldsCons(words[0], "");
    } else if |words| > 1 {
      FieldsUnwords(words[1..]);
      FieldsCons(words[0], Unwords(words[1..]));
    }
  }

  // --------------------------------------------------------------- line scans

  /** Some line satisfies `p`: a search over the lines that stops at the first hit. */
  predicate AnyLine(lines: seq<string>, p: string -> bool)
  {
    |lines| > 0 && (p(lines[0]) || AnyLine(lines[1..], p))
  }

  /** A line satisfying `p` makes the search succeed. */
  lemma {:induction false} AnyLineFrom(lines: seq<string>, p: string -> bool, i: int)
    requires 0 <= i < |lines| && p(lines[i])
    ensures AnyLine(lines, p)
  {
    if i > 0 {
      assert lines[1..][i - 1] == lines[i];
      AnyLineFrom(lines[1..], p, i - 1);
    }
  }

  /** When the search succeeds, some line satisfies `p`. */
  lemma {:induction false} AnyLineWitness(lines: seq<string>, p: string -> bool) returns (i: int)
    requires AnyLine(lines, p)
    ensures 0 <= i < |lines| && p(lines[i])
  {
    if p(lines[0]) {
      i := 0;
    } else {
      var k := AnyLineWitness(lines[1..], p);
      assert lines[1..][k] == lines[k + 1];
      i := k + 1;
    }
  }

  /** The search succeeds exactly when some line satisfies `p`. */
  lemma AnyLineSpec(lines: seq<string>, p: string -> bool)
    ensures AnyLine(lines, p) <==> exists i :: 0 <= i < |lines| && p(lines[i])
  {
    if AnyLine(lines, p) {
      var i := AnyLineWitness(lines, p);
    }
    forall i | 0 <= i < |lines| && p(lines[i]) ensures AnyLine(lines, p) {
      AnyLineFrom(lines, p, i);
    }
  }

  /** Searching two blocks of lines is searching one, then the other. */
  lemma {:induction false} AnyLineAppend(a: seq<string>, b: seq<string>, p: string -> bool)
    ensures AnyLine(a + b, p) == (AnyLine(a, p) || AnyLine(b, p))
  {
    if |a| == 0 {
      assert a + b == b;
    } else {
      assert (a + b)[0] == a[0];
      assert (a + b)[1..] == a[1..] + b;
      AnyLineAppend(a[1..], b, p);
    }
  }

  /** The search over one line, or over that line and an empty one that fails `p`. */
  lemma AnyLineShort(a: string, p: string -> bool)
    requires !p("")
    ensures AnyLine([a], p) == p(a) && AnyLine([a, ""], p) == p(a) && !AnyLine([""], p)
  {
    assert [a][1..] == [] && [a, ""][1..] == [""] && [""][1..] == [];
  }

  /** The index of the first line satisfying `p`, or `|lines|` when no line does. */
  function FirstLine(lines: seq<string>, p: string -> bool): (i: nat)
    ensures i <= |lines|
    ensures i < |lines| ==> p(lines[i])
    ensures forall j :: 0 <= j < i ==> !p(lines[j])
  {
    if |lines| == 0 || p(lines[0]) then 0
    else
      var k := FirstLine(lines[1..], p);
      assert forall j :: 0 < j <= k ==> lines[j] == lines[1..][j - 1];
      1 + k
  }

  /** An index with the two properties of the first hit is the first hit. */
  lemma FirstLineUnique(lines: seq<string>, p: string -> bool, i: int)
    requires 0 <= i <= |lines| && (i < |lines| ==> p(lines[i]))
    requires forall j :: 0 <= j < i ==> !p(lines[j])
    ensures FirstLine(lines, p) == i
  {
  }

  /** The first hit in two blocks of lines is in the first block if it has one, and in the second otherwise. */
  lemma FirstLineAppend(a: seq<string>, b: seq<string>, p: string -> bool)
    ensures FirstLine(a + b, p) == if FirstLine(a, p) < |a| then FirstLine(a, p) else |a| + FirstLine(b, p)
  {
    var ka, kb := FirstLine(a, p), FirstLine(b, p);
    if ka < |a| {
      assert (a + b)[ka] == a[ka];
      assert forall j :: 0 <= j < ka ==> (a + b)[j] == a[j];
      FirstLineUnique(a + b, p, ka);
    } else {
      assert forall j :: |a| <= j < |a| + kb ==> (a + b)[j] == b[j - |a|];
      assert forall j :: 0 <= j < |a| ==> (a + b)[j] == a[j];
      if kb < |b| {
        assert (a + b)[|a| + kb] == b[kb];
      }
      FirstLineUnique(a + b, p, |a| + kb);
    }
  }

  /** The line the first hit in two blocks of lines lands on. */
  lemma FirstLineHit(a: seq<string>, b: seq<string>, p: string -> bool)
    ensures var k, ka, kb := FirstLine(a + b, p), FirstLine(a, p), FirstLine(b, p);
      && (k < |a + b| <==> ka < |a| || kb < |b|)
      && (ka < |a| ==> k < |a + b| && (a + b)[k] == a[ka])
      && (ka == |a| && kb < |b| ==> k < |a + b| && (a + b)[k] == b[kb])
  {
    FirstLineAppend(a, b, p);
    var ka := FirstLine(a, p);
    if ka < |a| {
      assert (a + b)[ka] == a[ka];
    } else {
      var kb := FirstLine(b, p);
      if kb < |b| {
        assert (a + b)[|a| + kb] == b[kb];
      }
    }
  }

  /** Some line satisfies `p` exactly when the first hit lies inside the lines. */
  lemma FirstLineFound(lines: seq<string>, p: string -> bool)
    ensures FirstLine(lines, p) < |lines| <==> exists i :: 0 <= i < |lines| && p(lines[i])
  {
  }
}
