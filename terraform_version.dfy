/** The version reader (scripts/terraform-version.js): reads `<src>/.terraform-version`,
    trims it, accepts it only when it is `digits.digits.digits`, and publishes it as the
    step output `version`. */
module TerraformVersion {
  import opened Effects
  import opened Text

  const VersionFileSuffix: string := "/.terraform-version"
  // No space between "at" and the path: the source concatenates them directly.
  const LookupPrefix: string := "Looking for Terraform version file at"
  const MissingMessage: string := "The .terraform-version file does not exist. Cannot set version."
  const InvalidPrefix: string := "The .terraform-version file does not contain a valid value: "
  const AcceptedPrefix: string := "Terraform version set to v"
  const OutputKey: string := "version"

  /** The template `${src}/.terraform-version`. */
  function VersionFilePath(src: string): string {
    src + VersionFileSuffix
  }

  /** The path is the directory followed by `/.terraform-version`, with nothing between. */
  lemma VersionFilePathShape(src: string)
    ensures StartsWith(VersionFilePath(src), src)
    ensures EndsWith(VersionFilePath(src), VersionFileSuffix)
    ensures |VersionFilePath(src)| == |src| + |VersionFileSuffix|
  {
    StartsWithConcat(src, VersionFileSuffix);
    EndsWithConcat(src, VersionFileSuffix);
  }

  // ---------------------------------------------------------------------------
  // String.prototype.trim

  /** The characters `trim` removes: ECMAScript's WhiteSpace (tab, vertical tab, form
      feed, no-break space, zero-width no-break space and the Zs space separators) and
      LineTerminator (line feed, carriage return, line and paragraph separators). */
  predicate IsWhitespace(c: char) {
    c == '\t' || c == '\n' || c == '\U{B}' || c == '\U{C}' || c == '\r' || c == ' ' ||
    c == '\U{A0}' || c == '\U{1680}' || ('\U{2000}' <= c <= '\U{200A}') ||
    c == '\U{2028}' || c == '\U{2029}' || c == '\U{202F}' || c == '\U{205F}' ||
    c == '\U{3000}' || c == '\U{FEFF}'
  }

  predicate AllWhitespace(s: string) {
    forall i :: 0 <= i < |s| ==> IsWhitespace(s[i])
  }

  lemma WhitespaceCons(c: char, w: string)
    requires IsWhitespace(c) && AllWhitespace(w)
    ensures AllWhitespace([c] + w)
  {
    assert forall i :: 0 < i < |[c] + w| ==> ([c] + w)[i] == w[i - 1];
  }

  lemma WhitespaceSnoc(w: string, c: char)
    requires AllWhitespace(w) && IsWhitespace(c)
    ensures AllWhitespace(w + [c])
  {
    assert forall i :: 0 <= i < |w| ==> (w + [c])[i] == w[i];
  }

  /** `s` without its leading whitespace. */
  function TrimStart(s: string): (r: string)
    ensures |r| <= |s| && r == s[|s| - |r|..]
    ensures AllWhitespace(s[..|s| - |r|])
    ensures r == [] || !IsWhitespace(r[0])
    decreases |s|
  {
    if s != [] && IsWhitespace(s[0]) then
      var r := TrimStart(s[1..]);
      assert s[..|s| - |r|] == [s[0]] + s[1..][..|s[1..]| - |r|];
      WhitespaceCons(s[0], s[1..][..|s[1..]| - |r|]);
      r
    else
      s
  }

  /** `s` without its trailing whitespace. */
  function TrimEnd(s: string): (r: string)
    ensures |r| <= |s| && r == s[..|r|]
    ensures AllWhitespace(s[|r|..])
    ensures r == [] || !IsWhitespace(r[|r| - 1])
    decreases |s|
  {
    if s != [] && IsWhitespace(s[|s| - 1]) then
      var prefix := s[..|s| - 1];
      var r := TrimEnd(prefix);
      assert s[|r|..] == prefix[|r|..] + [s[|s| - 1]];
      WhitespaceSnoc(prefix[|r|..], s[|s| - 1]);
      assert r == prefix[..|r|] == s[..|r|];
      r
    else
      s
  }

  /** `s` with whitespace removed from both ends: it neither starts nor ends in
      whitespace (TrimDecomposes and TrimUnique relate it to `s`). */
  function Trim(s: string): (r: string)
    ensures |r| <= |s|
    ensures r == [] || (!IsWhitespace(r[0]) && !IsWhitespace(r[|r| - 1]))
  {
    var u := TrimStart(s);
    var r := TrimEnd(u);
    assert r != [] ==> r[0] == u[0];
    r
  }

  /** What Trim returns is the middle part of `s`, with only whitespace around it. */
  lemma TrimDecomposes(s: string)
    ensures exists k :: 0 <= k <= |s| - |Trim(s)| && s[k..k + |Trim(s)|] == Trim(s) &&
                        AllWhitespace(s[..k]) && AllWhitespace(s[k + |Trim(s)|..])
  {
    var u := TrimStart(s);
    var r := TrimEnd(u);
    assert r == Trim(s);
    var k := Middle(s, u, r);
    assert 0 <= k <= |s| - |r| && s[k..k + |r|] == r &&
           AllWhitespace(s[..k]) && AllWhitespace(s[k + |r|..]);
  }

  /** The step of TrimDecomposes that needs only the contracts of TrimStart and TrimEnd:
      `r` sits at offset `k` of `s`. */
  lemma Middle(s: string, u: string, r: string) returns (k: nat)
    requires |u| <= |s| && u == s[|s| - |u|..] && AllWhitespace(s[..|s| - |u|])
    requires |r| <= |u| && r == u[..|r|] && AllWhitespace(u[|r|..])
    ensures k <= |s| - |r| && s[k..k + |r|] == r
    ensures AllWhitespace(s[..k]) && AllWhitespace(s[k + |r|..])
  {
    k := |s| - |u|;
    assert s[k..k + |r|] == u[..|r|];
    assert s[k + |r|..] == u[|r|..];
  }

  lemma {:induction false} TrimStartSkips(p: string, u: string)
    requires AllWhitespace(p)
    requires u == [] || !IsWhitespace(u[0])
    ensures TrimStart(p + u) == u
    decreases |p|
  {
    if p != [] {
      assert (p + u)[1..] == p[1..] + u;
      TrimStartSkips(p[1..], u);
    }
  }

  lemma {:induction false} TrimEndSkips(u: string, q: string)
    requires AllWhitespace(q)
    requires u == [] || !IsWhitespace(u[|u| - 1])
    ensures TrimEnd(u + q) == u
    decreases |q|
  {
    if q != [] {
      assert (u + q)[..|u + q| - 1] == u + q[..|q| - 1];
      TrimEndSkips(u, q[..|q| - 1]);
    }
  }

  /** The converse of Trim's contract: whatever sits between two whitespace runs and has
      no whitespace at its ends is what Trim returns. */
  lemma TrimUnique(p: string, t: string, q: string)
    requires AllWhitespace(p) && AllWhitespace(q)
    requires t == [] || (!IsWhitespace(t[0]) && !IsWhitespace(t[|t| - 1]))
    ensures Trim(p + t + q) == t
  {
    if t == [] {
      assert p + t + q == (p + q) + [];
      TrimStartSkips(p + q, []);
    } else {
      assert p + t + q == p + (t + q);
      TrimStartSkips(p, t + q);
      TrimEndSkips(t, q);
    }
  }

  lemma TrimIdempotent(s: string)
    ensures Trim(Trim(s)) == Trim(s)
  {
    var r := Trim(s);
    assert TrimStart(r) == r;
    assert TrimEnd(r) == r;
  }

  // ---------------------------------------------------------------------------
  // The pattern ^\d+\.\d+\.\d+$

  /** `\d` without the `u` flag: the ASCII digits only. */
  predicate IsDigit(c: char) {
    '0' <= c <= '9'
  }

  /** What `\d+` matches: one or more digits. */
  predicate IsDigitRun(s: string) {
    |s| > 0 && forall i :: 0 <= i < |s| ==> IsDigit(s[i])
  }

  /** The end of the longest run of digits in `s` that starts at `i`. */
  function DigitsEnd(s: string, i: nat): (j: nat)
    requires i <= |s|
    ensures i <= j <= |s|
    ensures forall k :: i <= k < j ==> IsDigit(s[k])
    ensures j == |s| || !IsDigit(s[j])
    decreases |s| - i
  {
    if i < |s| && IsDigit(s[i]) then DigitsEnd(s, i + 1) else i
  }

  /** The recogniser for ^\d+\.\d+\.\d+$: three maximal digit runs, each of them
      non-empty, separated by single dots, the last one reaching the end of `s`. A
      greedy run is the only way `\d+` can match here, because the character after
      it must be a dot or the end. */
  predicate IsVersion(s: string): (accepted: bool)
    ensures accepted ==> 5 <= |s| && IsDigit(s[0]) && IsDigit(s[|s| - 1])
    ensures accepted ==> forall i :: 0 <= i < |s| ==> IsDigit(s[i]) || s[i] == '.'
  {
    var a := DigitsEnd(s, 0);
    0 < a < |s| && s[a] == '.' &&
    var b := DigitsEnd(s, a + 1);
    a + 1 < b < |s| && s[b] == '.' &&
    var c := DigitsEnd(s, b + 1);
    b + 1 < c && c == |s|
  }

  /** The language of the pattern, written as the strings it is made from. */
  function Dotted(major: string, minor: string, patch: string): string {
    major + "." + minor + "." + patch
  }

  lemma DigitsEndAt(s: string, i: nat, j: nat)
    requires i <= j <= |s|
    requires forall k :: i <= k < j ==> IsDigit(s[k])
    requires j == |s| || !IsDigit(s[j])
    ensures DigitsEnd(s, i) == j
  {
  }

  lemma DottedIsVersion(major: string, minor: string, patch: string)
    requires IsDigitRun(major) && IsDigitRun(minor) && IsDigitRun(patch)
    ensures IsVersion(Dotted(major, minor, patch))
  {
    var s := Dotted(major, minor, patch);
    var a, b := |major|, |major| + 1 + |minor|;
    assert forall k :: 0 <= k < a ==> s[k] == major[k];
    assert s[a] == '.';
    DigitsEndAt(s, 0, a);
    assert forall k :: a + 1 <= k < b ==> s[k] == minor[k - a - 1];
    assert s[b] == '.';
    DigitsEndAt(s, a + 1, b);
    assert forall k :: b + 1 <= k < |s| ==> s[k] == patch[k - b - 1];
    DigitsEndAt(s, b + 1, |s|);
  }

  lemma VersionIsDotted(s: string)
    requires IsVersion(s)
    ensures exists major, minor, patch ::
              IsDigitRun(major) && IsDigitRun(minor) && IsDigitRun(patch) &&
              s == Dotted(major, minor, patch)
  {
    var a := DigitsEnd(s, 0);
    var b := DigitsEnd(s, a + 1);
    var major, minor, patch := s[..a], s[a + 1..b], s[b + 1..];
    assert s == Dotted(major, minor, patch);
  }

  /** The recogniser accepts exactly the pattern's language. */
  lemma IsVersionIff(s: string)
    ensures IsVersion(s) <==>
            exists major, minor, patch ::
              IsDigitRun(major) && IsDigitRun(minor) && IsDigitRun(patch) &&
              s == Dotted(major, minor, patch)
  {
    if IsVersion(s) {
      VersionIsDotted(s);
    }
    if exists major, minor, patch ::
         IsDigitRun(major) && IsDigitRun(minor) && IsDigitRun(patch) &&
         s == Dotted(major, minor, patch) {
      var major, minor, patch :|
        IsDigitRun(major) && IsDigitRun(minor) && IsDigitRun(patch) &&
        s == Dotted(major, minor, patch);
      DottedIsVersion(major, minor, patch);
    }
  }

  // ---------------------------------------------------------------------------
  // The exported function

  /** One run of the version reader with source directory `src`. Reading and trimming
      sit inside the `try`, so a missing file is caught and the function always
      returns normally. */
  function ReadVersion(src: string, fs: FileSystem): (e: Execution)
    ensures e.exit == Returned
    ensures 2 <= |e.trace| <= 3
    ensures e.trace[0] == Info(LookupPrefix + VersionFilePath(src))
    ensures e.trace[1].SetFailed? <==> |e.trace| == 2
  {
    var path := VersionFilePath(src);
    var lookup := Info(LookupPrefix + path);
    match ReadFile(fs, path)
    case None =>
      Execution([lookup, SetFailed(MissingMessage)], Returned)
    case Some(text) =>
      var version := Trim(text);
      if !IsVersion(version) then
        Execution([lookup, SetFailed(InvalidPrefix + version)], Returned)
      else
        Execution([lookup, Info(AcceptedPrefix + version), SetOutput(OutputKey, version)], Returned)
  }

  /** An accepted version: the lookup line, the echo of the trimmed value, then the
      output `version` set to it. */
  lemma ReadVersionAccepts(src: string, fs: FileSystem, major: string, minor: string, patch: string,
                           before: string, after: string)
    requires IsDigitRun(major) && IsDigitRun(minor) && IsDigitRun(patch)
    requires AllWhitespace(before) && AllWhitespace(after)
    requires ReadFile(fs, VersionFilePath(src)) == Some(before + Dotted(major, minor, patch) + after)
    ensures ReadVersion(src, fs).trace ==
            [Info(LookupPrefix + VersionFilePath(src)),
             Info(AcceptedPrefix + Dotted(major, minor, patch)),
             SetOutput(OutputKey, Dotted(major, minor, patch))]
  {
    var v := Dotted(major, minor, patch);
    TrimUnique(before, v, after);
    DottedIsVersion(major, minor, patch);
  }

  /** A missing or unreadable file: one failure with the fixed message, no output. */
  lemma ReadVersionMissing(src: string, fs: FileSystem)
    requires VersionFilePath(src) !in fs
    ensures ReadVersion(src, fs).trace[1] == SetFailed(MissingMessage)
    ensures Count(ReadVersion(src, fs).trace, OutputKind) == 0
  {
    var t := ReadVersion(src, fs).trace;
    assert t == [t[0]] + [t[1]];
    CountConcat([t[0]], [t[1]], OutputKind);
    CountSingle(t[0], OutputKind);
    CountSingle(t[1], OutputKind);
  }

  /** A value outside the pattern: one failure whose message ends in the trimmed
      value, no output. */
  lemma ReadVersionRejects(src: string, fs: FileSystem)
    requires VersionFilePath(src) in fs
    requires !IsVersion(Trim(fs[VersionFilePath(src)]))
    ensures ReadVersion(src, fs).trace[1] == SetFailed(InvalidPrefix + Trim(fs[VersionFilePath(src)]))
    ensures EndsWith(ReadVersion(src, fs).trace[1].message, Trim(fs[VersionFilePath(src)]))
    ensures Count(ReadVersion(src, fs).trace, OutputKind) == 0
  {
    var t := ReadVersion(src, fs).trace;
    EndsWithConcat(InvalidPrefix, Trim(fs[VersionFilePath(src)]));
    assert t == [t[0]] + [t[1]];
    CountConcat([t[0]], [t[1]], OutputKind);
    CountSingle(t[0], OutputKind);
    CountSingle(t[1], OutputKind);
  }

  /** Exactly one of SetFailed and SetOutput occurs, and the output is set exactly when
      the file is readable and its trimmed text is in the pattern's language. */
  lemma ReadVersionOutcome(src: string, fs: FileSystem)
    ensures Count(ReadVersion(src, fs).trace, FailKind) + Count(ReadVersion(src, fs).trace, OutputKind) == 1
    ensures Count(ReadVersion(src, fs).trace, OutputKind) == 1 <==>
            VersionFilePath(src) in fs &&
            exists major, minor, patch ::
              IsDigitRun(major) && IsDigitRun(minor) && IsDigitRun(patch) &&
              Trim(fs[VersionFilePath(src)]) == Dotted(major, minor, patch)
  {
    var t := ReadVersion(src, fs).trace;
    if |t| == 2 {
      assert t == [t[0], t[1]];
      CountPair(t[0], t[1], FailKind);
      CountPair(t[0], t[1], OutputKind);
    } else {
      assert t == [t[0], t[1], t[2]];
      CountTriple(t[0], t[1], t[2], FailKind);
      CountTriple(t[0], t[1], t[2], OutputKind);
    }
    CountSingle(t[0], FailKind);
    CountSingle(t[1], FailKind);
    CountSingle(t[0], OutputKind);
    CountSingle(t[1], OutputKind);
    if |t| == 3 {
      CountSingle(t[2], FailKind);
      CountSingle(t[2], OutputKind);
    }
    if VersionFilePath(src) in fs {
      IsVersionIff(Trim(fs[VersionFilePath(src)]));
    }
  }

  /** Replacing the file's content by its trimmed form, which is what a run publishes
      when it accepts, reproduces the same run: the published value is a fixed point. */
  lemma ReadVersionStable(src: string, fs: FileSystem)
    requires VersionFilePath(src) in fs
    ensures ReadVersion(src, fs[VersionFilePath(src) := Trim(fs[VersionFilePath(src)])]) ==
            ReadVersion(src, fs)
  {
    var path := VersionFilePath(src);
    var fs' := fs[path := Trim(fs[path])];
    assert ReadFile(fs', path) == Some(Trim(fs[path]));
    TrimIdempotent(fs[path]);
  }

  /** The result depends on the directory and on no file other than the version file. */
  lemma ReadVersionLocal(src: string, fs1: FileSystem, fs2: FileSystem)
    requires ReadFile(fs1, VersionFilePath(src)) == ReadFile(fs2, VersionFilePath(src))
    ensures ReadVersion(src, fs1) == ReadVersion(src, fs2)
  {
  }

  /** "1.2.3\n" publishes "1.2.3". */
  lemma ReadVersionTrailingNewline(src: string, fs: FileSystem)
    requires ReadFile(fs, VersionFilePath(src)) == Some("1.2.3\n")
    ensures ReadVersion(src, fs).trace ==
            [Info(LookupPrefix + VersionFilePath(src)), Info(AcceptedPrefix + "1.2.3"),
             SetOutput(OutputKey, "1.2.3")]
  {
    TrimNewlineExample();
    VersionExample();
    ReadVersionPublishes(src, fs);
  }

  lemma TrimNewlineExample()
    ensures Trim("1.2.3\n") == "1.2.3"
  {
    assert AllWhitespace("\n");
    assert "1.2.3\n" == "" + "1.2.3" + "\n";
    TrimUnique("", "1.2.3", "\n");
  }

  lemma VersionExample()
    ensures IsVersion("1.2.3")
  {
    assert IsDigitRun("1") && IsDigitRun("2") && IsDigitRun("3");
    assert Dotted("1", "2", "3") == "1.2.3";
    DottedIsVersion("1", "2", "3");
  }

  lemma ReadVersionPublishes(src: string, fs: FileSystem)
    requires VersionFilePath(src) in fs && IsVersion(Trim(fs[VersionFilePath(src)]))
    ensures ReadVersion(src, fs).trace ==
            [Info(LookupPrefix + VersionFilePath(src)), Info(AcceptedPrefix + Trim(fs[VersionFilePath(src)])),
             SetOutput(OutputKey, Trim(fs[VersionFilePath(src)]))]
  {
  }

  /** "1.2" is refused with a failure naming it. */
  lemma ReadVersionTwoGroups(src: string, fs: FileSystem)
    requires ReadFile(fs, VersionFilePath(src)) == Some("1.2")
    ensures ReadVersion(src, fs).trace ==
            [Info(LookupPrefix + VersionFilePath(src)), SetFailed(InvalidPrefix + "1.2")]
  {
    TwoGroupsExample();
  }

  lemma TwoGroupsExample()
    ensures Trim("1.2") == "1.2" && !IsVersion("1.2")
  {
    var s := "1.2";
    assert [] + s + [] == s;
    TrimUnique([], s, []);
    assert s[0] == '1' && s[1] == '.' && s[2] == '2';
    DigitsEndAt(s, 0, 1);
    DigitsEndAt(s, 2, 3);
    assert DigitsEnd(s, DigitsEnd(s, 0) + 1) == |s|;
  }
}
