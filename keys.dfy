/**
 * The declaration merger `writeOrAppendKey` (main.go:45-101) and its two
 * line scans `looksLikeKeysPackage` (main.go:103-111) and `keyExists`
 * (main.go:113-126). The target file is an optional text: `None` when it
 * does not exist, `Some(contents)` when it does.
 */
module Keys {
  import opened Wrappers
  import opened Text
  import Secret

  const PackageDecl: string := "package keys"
  const PackagePrefix: string := "package "
  const ConstPrefix: string := "const "

  // --------------------------------------------------------- declaration line

  /** Values that Go's `%q` prints between plain double quotes: printable ASCII other than `"` and `\`. */
  predicate Quotable(v: string) {
    forall i :: 0 <= i < |v| ==> ' ' <= v[i] <= '~' && v[i] != '"' && v[i] != '\\'
  }

  /** `const <name> = "<value>"`, without its line terminator. */
  function DeclText(name: string, value: string): string
    requires Quotable(value)
  {
    ConstPrefix + name + " = \"" + value + "\""
  }

  /** The line `fmt.Sprintf("const %s = %q\n", keyName, key)` builds (main.go:53). */
  function DeclLine(name: string, value: string): string
    requires Quotable(value)
  {
    DeclText(name, value) + "\n"
  }

  /** Every value the generator produces can be written between plain double quotes. */
  lemma GeneratedIsQuotable(n: int, draws: seq<Secret.Draw>)
    requires Secret.Generate(n, draws).Success?
    ensures Quotable(Secret.Generate(n, draws).value)
  {
    var v := Secret.Generate(n, draws).value;
    Secret.GenerateShape(n, draws);
    Secret.AlphabetIsAlnum();
    forall i | 0 <= i < |v| ensures ' ' <= v[i] <= '~' && v[i] != '"' && v[i] != '\\' {
      assert v[i] in Secret.Alphabet;
      var j :| 0 <= j < |Secret.Alphabet| && Secret.Alphabet[j] == v[i];
      assert Secret.IsAlnum(Secret.Alphabet[j]);
    }
  }

  /**
   * The secret the tool stores: generation at the default length fails only
   * with an entropy error, and a success is 16 characters `%q` prints verbatim.
   */
  lemma DefaultSecret(draws: seq<Secret.Draw>)
    ensures Secret.Generate(Secret.DefaultLen, draws) != Failure(Secret.InvalidLength)
    ensures Secret.Generate(Secret.DefaultLen, draws).Success? ==>
      |Secret.Generate(Secret.DefaultLen, draws).value| == 16 && Quotable(Secret.Generate(Secret.DefaultLen, draws).value)
  {
    Secret.GenerateErrors(Secret.DefaultLen, draws);
    Secret.GenerateShape(Secret.DefaultLen, draws);
    if Secret.Generate(Secret.DefaultLen, draws).Success? {
      GeneratedIsQuotable(Secret.DefaultLen, draws);
    }
  }

  /** What `token.IsIdentifier` guarantees and the scans rely on: a non-empty name free of white space. */
  predicate IsBareName(name: string) {
    |name| > 0 && NoSpace(name)
  }

  // ---------------------------------------------------------- package scan

  /** A line that, once trimmed, starts with `package `. */
  predicate IsPackageLine(line: string) {
    PackagePrefix <= TrimSpace(line)
  }

  /** `looksLikeKeysPackage` on the lines of a file: the first package line decides, and it must read exactly `package keys` once trimmed. */
  predicate PackageVerdict(lines: seq<string>) {
    var i := FirstLine(lines, IsPackageLine);
    i < |lines| && TrimSpace(lines[i]) == PackageDecl
  }

  /** `looksLikeKeysPackage(src)`. */
  predicate LooksLikeKeysPackage(src: string) {
    PackageVerdict(Split(src))
  }

  /** Line `i` is the first package line of `lines`. */
  predicate FirstPackageLineAt(lines: seq<string>, i: int) {
    0 <= i < |lines| && IsPackageLine(lines[i])
    && forall j :: 0 <= j < i ==> !IsPackageLine(lines[j])
  }

  predicate HasPackageLine(lines: seq<string>) {
    exists i :: 0 <= i < |lines| && IsPackageLine(lines[i])
  }

  /** The scan accepts exactly when some line is the first package line and reads `package keys`. */
  lemma PackageVerdictSpec(lines: seq<string>)
    ensures PackageVerdict(lines) <==>
      exists i :: FirstPackageLineAt(lines, i) && TrimSpace(lines[i]) == PackageDecl
  {
    var k := FirstLine(lines, IsPackageLine);
    if k < |lines| {
      assert FirstPackageLineAt(lines, k);
    }
    forall i | FirstPackageLineAt(lines, i) ensures i == k {
      FirstLineUnique(lines, IsPackageLine, i);
    }
  }

  /** A file without any package line is rejected. */
  lemma NoPackageLineRejected(lines: seq<string>)
    requires !HasPackageLine(lines)
    ensures !PackageVerdict(lines)
  {
    FirstLineFound(lines, IsPackageLine);
  }

  /** Lines after the first package line never change the verdict. */
  lemma PackageVerdictAppend(a: seq<string>, b: seq<string>)
    ensures PackageVerdict(a + b) == if HasPackageLine(a) then PackageVerdict(a) else PackageVerdict(b)
  {
    FirstLineHit(a, b, IsPackageLine);
    FirstLineFound(a, IsPackageLine);
  }

  /** Text appended after a line break does not change the verdict once a package line is present. */
  lemma LaterPackageLinesIgnored(src: string, more: string)
    requires HasPackageLine(Split(src))
    ensures LooksLikeKeysPackage(src + "\n" + more) == LooksLikeKeysPackage(src)
  {
    SplitConcat(src, more);
    PackageVerdictAppend(Split(src), Split(more));
  }

  lemma AcceptedHasPackageLine(lines: seq<string>)
    requires PackageVerdict(lines)
    ensures HasPackageLine(lines)
  {
    FirstLineFound(lines, IsPackageLine);
  }

  /** A trimmed line that starts with `package ` is a package line that trims to itself. */
  lemma TrimmedPackageLine(h: string)
    requires |h| > 0 && !IsSpace(h[0]) && !IsSpace(h[|h| - 1]) && PackagePrefix <= h
    ensures TrimSpace(h) == h && IsPackageLine(h)
  {
    TrimSpaceKeeps(h);
  }

  // ------------------------------------------------------------ duplicate scan

  /** The trimmed line starts with `const ` and its second field is `name`. */
  predicate Declares(line: string, name: string) {
    var t := TrimSpace(line);
    ConstPrefix <= t && var f := Fields(t); |f| >= 2 && f[1] == name
  }

  /** The test `keyExists` applies to each line. */
  function DeclaresName(name: string): string -> bool {
    line => Declares(line, name)
  }

  /** `keyExists(src, keyName)`: the lines are searched for one that declares the name. */
  predicate KeyExists(src: string, name: string) {
    AnyLine(Split(src), DeclaresName(name))
  }

  /** The scan finds a duplicate exactly when some line declares the name. */
  lemma KeyExistsSpec(src: string, name: string)
    ensures KeyExists(src, name) <==> exists i :: 0 <= i < |Split(src)| && Declares(Split(src)[i], name)
  {
    AnyLineSpec(Split(src), DeclaresName(name));
    assert forall i :: 0 <= i < |Split(src)| ==> DeclaresName(name)(Split(src)[i]) == Declares(Split(src)[i], name);
  }

  /** Text joined by a line break declares a name exactly when one of its parts does. */
  lemma KeyExistsAppend(a: string, b: string, name: string)
    ensures KeyExists(a + "\n" + b, name) == (KeyExists(a, name) || KeyExists(b, name))
  {
    SplitConcat(a, b);
    AnyLineAppend(Split(a), Split(b), DeclaresName(name));
  }

  /** A trimmed line that does not start with `c` declares nothing. */
  lemma NotConstLine(line: string, other: string)
    requires TrimSpace(line) == line && (|line| == 0 || line[0] != 'c')
    ensures !Declares(line, other)
  {
    NotConstPrefix(line);
  }

  lemma NotConstPrefix(line: string)
    requires |line| == 0 || line[0] != 'c'
    ensures !(ConstPrefix <= line)
  {
    assert ConstPrefix[0] == 'c';
  }

  /** An empty line is neither a package line nor a declaration. */
  lemma EmptyLine(other: string)
    ensures !IsPackageLine("") && !Declares("", other)
  {
    assert TrimSpace("") == "";
    NotConstLine("", other);
  }

  lemma DeclTextOneLine(name: string, value: string)
    requires Quotable(value) && IsBareName(name)
    ensures '\n' !in DeclText(name, value)
  {
    assert '\n' !in name by {
      assert forall i :: 0 <= i < |name| ==> name[i] != '\n';
    }
    assert '\n' !in value by {
      assert forall i :: 0 <= i < |value| ==> value[i] != '\n';
    }
  }

  lemma DeclTextTrimmed(name: string, value: string)
    requires Quotable(value)
    ensures TrimSpace(DeclText(name, value)) == DeclText(name, value)
  {
    var t := DeclText(name, value);
    assert t[0] == 'c' && t[|t| - 1] == '"';
    TrimSpaceKeeps(t);
  }

  lemma DeclTextFields(name: string, value: string)
    requires Quotable(value) && IsBareName(name)
    ensures var f := Fields(DeclText(name, value)); |f| >= 2 && f[0] == "const" && f[1] == name
  {
    var rest := "= \"" + value + "\"";
    assert DeclText(name, value) == "const" + " " + (name + " " + rest);
    FieldsCons("const", name + " " + rest);
    FieldsCons(name, rest);
  }

  lemma DeclTextPrefix(name: string, value: string)
    requires Quotable(value)
    ensures ConstPrefix <= DeclText(name, value) && !(PackagePrefix <= DeclText(name, value))
  {
    assert DeclText(name, value)[0] == 'c';
  }

  /** The generated line is one declaration line followed by the empty remainder. */
  lemma DeclLineSplit(name: string, value: string)
    requires Quotable(value) && IsBareName(name)
    ensures Split(DeclLine(name, value)) == [DeclText(name, value), ""]
  {
    DeclTextOneLine(name, value);
    SplitTerminated(DeclText(name, value));
  }

  /** The declaration text declares its own name and no other. */
  lemma DeclTextDeclares(name: string, value: string, other: string)
    requires Quotable(value) && IsBareName(name)
    ensures Declares(DeclText(name, value), other) <==> other == name
    ensures !IsPackageLine(DeclText(name, value))
  {
    DeclTextTrimmed(name, value);
    DeclTextFields(name, value);
    DeclTextPrefix(name, value);
  }

  /** The generated line declares its own name and no other, and is no package file. */
  lemma DeclLineDeclares(name: string, value: string, other: string)
    requires Quotable(value) && IsBareName(name)
    ensures KeyExists(DeclLine(name, value), other) <==> other == name
    ensures !LooksLikeKeysPackage(DeclLine(name, value))
  {
    var t := DeclText(name, value);
    DeclLineSplit(name, value);
    DeclTextDeclares(name, value, other);
    EmptyLine(other);
    AnyLineShort(t, DeclaresName(other));
    FirstLineUnique([t, ""], IsPackageLine, 2);
  }

  // ------------------------------------------------------------------ merge

  datatype MergeError = WrongPackage | DuplicateKey

  /** The file after a merge, and the error it reported if any. */
  datatype Outcome = Outcome(file: Option<string>, error: Option<MergeError>)

  /** What is written between the existing contents and the new line (main.go:79-88). */
  function Separator(src: string): (sep: string)
  {
    (if |src| > 0 && src[|src| - 1] != '\n' then "\n" else "")
    + (if |TrimSpace(src)| > 0 then "\n" else "")
  }

  /** `writeOrAppendKey(outPath, name, value)` on the file's current state. */
  function Merge(file: Option<string>, name: string, value: string): (r: Outcome)
    requires Quotable(value)
    ensures r.error.Some? ==> r.file == file
    ensures r.error == Some(WrongPackage) <==> file.Some? && !LooksLikeKeysPackage(file.value)
    ensures r.error == Some(DuplicateKey) <==>
      file.Some? && LooksLikeKeysPackage(file.value) && KeyExists(file.value, name)
    ensures r.error.None? <==> r.file != file
  {
    match file
    case None => Outcome(Some("package keys\n\n" + DeclLine(name, value)), None)
    case Some(src) =>
      if !LooksLikeKeysPackage(src) then Outcome(file, Some(WrongPackage))
      else if KeyExists(src, name) then Outcome(file, Some(DuplicateKey))
      else Outcome(Some(src + Separator(src) + DeclLine(name, value)), None)
  }

  // ---------------------------------------------------------- merge lemmas

  /** A missing file is created as the package line, a blank line and the declaration. */
  lemma MergeBootstrap(name: string, value: string)
    requires Quotable(value)
    ensures Merge(None, name, value)
         == Outcome(Some("package keys\n\nconst " + name + " = \"" + value + "\"\n"), None)
  {
    var d := DeclLine(name, value);
    assert d == "const " + name + " = \"" + value + "\"" + "\n";
    assert "package keys\n\n" + d == "package keys\n\nconst " + name + " = \"" + value + "\"\n";
  }

  /** Every line of an all-blank text is blank. */
  lemma {:induction false} BlankLines(s: string)
    requires AllSpace(s)
    ensures forall i :: 0 <= i < |Split(s)| ==> AllSpace(Split(s)[i])
  {
    if |s| > 0 {
      var rest := Split(s[1..]);
      assert AllSpace(s[1..]) by {
        forall k | 0 <= k < |s| - 1 ensures IsSpace(s[1..][k]) {
          assert s[1..][k] == s[k + 1];
        }
      }
      BlankLines(s[1..]);
      if s[0] != '\n' {
        var head := [s[0]] + rest[0];
        assert AllSpace(head) by {
          forall k | 0 <= k < |head| ensures IsSpace(head[k]) {
            if k > 0 {
              assert head[k] == rest[0][k - 1];
            }
          }
        }
        assert Split(s) == [head] + rest[1..];
      } else {
        assert Split(s) == [""] + rest;
      }
    }
  }

  /** A blank line is no package line. */
  lemma BlankLineNotPackage(line: string)
    requires AllSpace(line)
    ensures !IsPackageLine(line)
  {
    TrimSpaceEmpty(line);
  }

  /** An all-blank text has only blank lines, so none of them is a package line. */
  lemma BlankHasNoPackageLine(s: string)
    requires AllSpace(s)
    ensures !HasPackageLine(Split(s))
  {
    BlankLines(s);
    forall i | 0 <= i < |Split(s)| ensures !IsPackageLine(Split(s)[i]) {
      BlankLineNotPackage(Split(s)[i]);
    }
  }

  /** An accepted existing file has non-blank contents, so the merge always writes the blank separator line. */
  lemma AcceptedIsNotBlank(src: string)
    requires LooksLikeKeysPackage(src)
    ensures |src| > 0 && |TrimSpace(src)| > 0
  {
    AcceptedHasPackageLine(Split(src));
    if AllSpace(src) {
      BlankHasNoPackageLine(src);
    }
    TrimSpaceEmpty(src);
  }

  /** On an accepted file the separator is one newline after a terminated last line, two otherwise. */
  lemma AcceptedSeparator(src: string)
    requires LooksLikeKeysPackage(src)
    ensures |src| > 0
    ensures Separator(src) == if src[|src| - 1] == '\n' then "\n" else "\n\n"
  {
    AcceptedIsNotBlank(src);
  }

  /** On an accepted file the merge appends one or two newlines and then the declaration line. */
  lemma MergeAppendShape(src: string, name: string, value: string)
    requires Quotable(value)
    requires LooksLikeKeysPackage(src) && !KeyExists(src, name)
    ensures |src| > 0
    ensures Merge(Some(src), name, value).file
         == Some(src + (if src[|src| - 1] == '\n' then "\n" else "\n\n") + DeclLine(name, value))
  {
    AcceptedSeparator(src);
  }

  /** The lines of an accepted file once the separator and a text `d` are appended. */
  lemma AppendedLines(src: string, d: string)
    requires LooksLikeKeysPackage(src)
    ensures Split(src + Separator(src) + d)
         == Split(src) + ((if |src| > 0 && src[|src| - 1] != '\n' then [""] else []) + Split(d))
  {
    AcceptedSeparator(src);
    var gap: seq<string> := if |src| > 0 && src[|src| - 1] != '\n' then [""] else [];
    if src[|src| - 1] == '\n' {
      AppendAfterNewline(src, d);
      assert gap + Split(d) == Split(d);
    } else {
      AppendAfterText(src, d);
      assert gap == [""];
    }
  }

  lemma AppendAfterNewline(src: string, d: string)
    requires |src| > 0 && src[|src| - 1] == '\n' && Separator(src) == "\n"
    ensures Split(src + Separator(src) + d) == Split(src) + Split(d)
  {
    assert src + Separator(src) + d == src + "\n" + d;
    SplitConcat(src, d);
  }

  lemma AppendAfterText(src: string, d: string)
    requires Separator(src) == "\n\n"
    ensures Split(src + Separator(src) + d) == Split(src) + ([""] + Split(d))
  {
    assert src + Separator(src) + d == src + "\n\n" + d;
    SplitBlankBetween(src, d);
  }

  /** The lines of a newly created file around a text `d`. */
  lemma CreatedLines(d: string)
    ensures Split("package keys\n\n" + d) == [PackageDecl] + [""] + Split(d)
  {
    assert "package keys\n\n" + d == PackageDecl + "\n\n" + d;
    SplitHeader(PackageDecl, d);
  }

  /** The lines a successful merge leaves: the old lines, then the declaration text `t` on a line of its own. */
  function MergedLines(file: Option<string>, t: string): seq<string>
  {
    match file
    case None => [PackageDecl] + [""] + [t, ""]
    case Some(src) => Split(src) + ((if |src| > 0 && src[|src| - 1] != '\n' then [""] else []) + [t, ""])
  }

  /** The lines a merge writes. */
  lemma MergeLinesAre(file: Option<string>, name: string, value: string)
    requires Quotable(value) && IsBareName(name)
    requires Merge(file, name, value).error.None?
    ensures Split(Merge(file, name, value).file.value) == MergedLines(file, DeclText(name, value))
  {
    DeclLineSplit(name, value);
    match file
    case None =>
      CreatedLines(DeclLine(name, value));
    case Some(src) =>
      AppendedLines(src, DeclLine(name, value));
  }

  /** The merged lines end in a blank line, the declaration, and the empty remainder. */
  lemma MergedLinesTail(file: Option<string>, t: string)
    requires file.Some? ==> |file.value| > 0
    ensures var lines := MergedLines(file, t);
      |lines| >= 3 && lines[|lines| - 3] == "" && lines[|lines| - 2] == t && lines[|lines| - 1] == ""
  {
    if file.Some? {
      var src := file.value;
      if src[|src| - 1] == '\n' {
        SplitEndsInNewline(src);
      }
    }
  }

  /**
   * A successful merge keeps every line of the old file, and the declaration
   * ends up on a line of its own right after a blank line.
   */
  lemma MergeLines(file: Option<string>, name: string, value: string)
    requires Quotable(value) && IsBareName(name)
    requires Merge(file, name, value).error.None?
    ensures var lines := Split(Merge(file, name, value).file.value);
      && lines == MergedLines(file, DeclText(name, value))
      && |lines| >= 3
      && lines[|lines| - 3] == "" && lines[|lines| - 2] == DeclText(name, value) && lines[|lines| - 1] == ""
  {
    MergeLinesAre(file, name, value);
    if file.Some? {
      AcceptedIsNotBlank(file.value);
    }
    MergedLinesTail(file, DeclText(name, value));
  }

  /** A declaration line followed by empty lines passes a line test exactly when the declaration does. */
  lemma TailLines(t: string, sep: seq<string>, p: string -> bool)
    requires sep == [] || sep == [""]
    requires !p("")
    ensures AnyLine(sep + [t, ""], p) == p(t)
  {
    AnyLineShort(t, p);
    AnyLineAppend(sep, [t, ""], p);
  }

  /** The header of a created file is a `package keys` line that declares nothing. */
  lemma HeaderFacts(other: string)
    ensures IsPackageLine(PackageDecl) && TrimSpace(PackageDecl) == PackageDecl
    ensures !Declares(PackageDecl, other)
  {
    TrimmedPackageLine(PackageDecl);
    NotConstLine(PackageDecl, other);
  }

  /** The lines of a created file pass the package scan and declare what `t` declares. */
  lemma CreatedLinesKeys(t: string, other: string)
    ensures PackageVerdict(MergedLines(None, t))
    ensures AnyLine(MergedLines(None, t), DeclaresName(other)) == Declares(t, other)
  {
    var lines := MergedLines(None, t);
    var p := DeclaresName(other);
    HeaderFacts(other);
    EmptyLine(other);
    assert lines[0] == PackageDecl;
    FirstLineUnique(lines, IsPackageLine, 0);
    assert lines == [PackageDecl, ""] + [t, ""];
    AnyLineShort(PackageDecl, p);
    AnyLineAppend([PackageDecl, ""], [t, ""], p);
    TailLines(t, [], p);
  }

  /** The lines of an extended file keep its verdict and declare its names plus what `t` declares. */
  lemma AppendedLinesKeys(src: string, t: string, other: string)
    requires LooksLikeKeysPackage(src)
    ensures PackageVerdict(MergedLines(Some(src), t))
    ensures AnyLine(MergedLines(Some(src), t), DeclaresName(other)) <==> Declares(t, other) || KeyExists(src, other)
  {
    var sep := if |src| > 0 && src[|src| - 1] != '\n' then [""] else [];
    var p := DeclaresName(other);
    EmptyLine(other);
    TailLines(t, sep, p);
    AcceptedHasPackageLine(Split(src));
    PackageVerdictAppend(Split(src), sep + [t, ""]);
    AnyLineAppend(Split(src), sep + [t, ""], p);
  }

  /**
   * The merged file still passes the package check, and it declares exactly
   * the names the old file declared plus the new one.
   */
  lemma MergeResultIsKeysFile(file: Option<string>, name: string, value: string, other: string)
    requires Quotable(value) && IsBareName(name)
    requires Merge(file, name, value).error.None?
    ensures LooksLikeKeysPackage(Merge(file, name, value).file.value)
    ensures KeyExists(Merge(file, name, value).file.value, other)
        <==> other == name || (file.Some? && KeyExists(file.value, other))
  {
    MergeLinesAre(file, name, value);
    DeclTextDeclares(name, value, other);
    match file
    case None =>
      CreatedLinesKeys(DeclText(name, value), other);
    case Some(src) =>
      AppendedLinesKeys(src, DeclText(name, value), other);
  }

  /** Merging the same name a second time is refused and leaves the file as the first merge wrote it. */
  lemma MergeAgainRejected(file: Option<string>, name: string, value: string, value2: string)
    requires Quotable(value) && Quotable(value2) && IsBareName(name)
    requires Merge(file, name, value).error.None?
    ensures var written := Merge(file, name, value).file;
      Merge(written, name, value2) == Outcome(written, Some(DuplicateKey))
  {
    MergeResultIsKeysFile(file, name, value, name);
  }

  /** After a merge, a further merge of a name the file does not declare yet succeeds. */
  lemma MergeAnotherAccepted(file: Option<string>, name: string, value: string,
                             other: string, value2: string)
    requires Quotable(value) && Quotable(value2) && IsBareName(name)
    requires Merge(file, name, value).error.None?
    requires other != name && !(file.Some? && KeyExists(file.value, other))
    ensures Merge(Merge(file, name, value).file, other, value2).error.None?
  {
    MergeResultIsKeysFile(file, name, value, other);
  }

  /** A file without a package line, or whose first package line is not `package keys`, is refused untouched. */
  lemma MergeRejectsForeignFile(src: string, name: string, value: string)
    requires Quotable(value)
    requires !HasPackageLine(Split(src))
          || exists i :: FirstPackageLineAt(Split(src), i) && TrimSpace(Split(src)[i]) != PackageDecl
    ensures Merge(Some(src), name, value) == Outcome(Some(src), Some(WrongPackage))
  {
    var lines := Split(src);
    if !HasPackageLine(lines) {
      NoPackageLineRejected(lines);
    } else {
      var i :| FirstPackageLineAt(lines, i) && TrimSpace(lines[i]) != PackageDecl;
      FirstLineUnique(lines, IsPackageLine, i);
    }
  }

  /** A keys file with a line declaring the name is refused untouched. */
  lemma MergeRejectsDuplicate(src: string, name: string, value: string)
    requires Quotable(value)
    requires LooksLikeKeysPackage(src)
    requires exists i :: 0 <= i < |Split(src)| && Declares(Split(src)[i], name)
    ensures Merge(Some(src), name, value) == Outcome(Some(src), Some(DuplicateKey))
  {
    KeyExistsSpec(src, name);
  }
}
