/** The output-path expression of `main`: the answer to the prompt is stripped,
    an empty answer becomes `demo.mp4`, and a path that does not already end in
    `.mp4` (in any letter case) receives an extension. */
module OutputPath {
  import opened Ascii

  const Default := "demo.mp4"
  const Extension := ".mp4"
  const InDirectory := "\\output.mp4"

  // ---------------------------------------------------------------------------
  // str.strip()
  // ---------------------------------------------------------------------------

  /** Drops the leading whitespace: the result is the suffix of `s` that starts at
      its first non-space character. */
  function TrimStart(s: string): (r: string)
    ensures |r| <= |s| && r == s[|s| - |r|..]
    ensures forall k :: 0 <= k < |s| - |r| ==> IsSpace(s[k])
    ensures r != [] ==> !IsSpace(r[0])
  {
    if s != [] && IsSpace(s[0]) then TrimStart(s[1..]) else s
  }

  /** Drops the trailing whitespace: the result is the prefix of `s` that ends at
      its last non-space character. */
  function TrimEnd(s: string): (r: string)
    ensures |r| <= |s| && r == s[..|r|]
    ensures forall k :: |r| <= k < |s| ==> IsSpace(s[k])
    ensures r != [] ==> !IsSpace(r[|r| - 1])
  {
    if s != [] && IsSpace(s[|s| - 1]) then TrimEnd(s[..|s| - 1]) else s
  }

  /** `str.strip()` on ASCII whitespace. */
  function Strip(s: string): string {
    TrimEnd(TrimStart(s))
  }

  /** The stripped string is a slice of the input with only whitespace cut off on
      either side, and it neither starts nor ends with whitespace. */
  lemma StripIsSlice(s: string)
    ensures exists i, j ::
              && 0 <= i <= j <= |s| && Strip(s) == s[i..j]
              && (forall k :: 0 <= k < i ==> IsSpace(s[k]))
              && (forall k :: j <= k < |s| ==> IsSpace(s[k]))
    ensures Strip(s) != [] ==> !IsSpace(Strip(s)[0]) && !IsSpace(Strip(s)[|Strip(s)| - 1])
  {
    var t := TrimStart(s);
    var i := |s| - |t|;
    var j := i + |Strip(s)|;
    assert Strip(s) == s[i..j] by {
      assert t == s[i..];
      assert Strip(s) == t[..|Strip(s)|];
    }
    forall k | j <= k < |s| ensures IsSpace(s[k]) {
      assert s[k] == t[k - i];
    }
  }

  /** Stripping a string that neither starts nor ends with whitespace leaves it as is. */
  lemma StripUnchanged(s: string)
    requires s != [] && !IsSpace(s[0]) && !IsSpace(s[|s| - 1])
    ensures Strip(s) == s
  {
    assert TrimStart(s) == s;
  }

  /** Leading whitespace in front of a part that starts with none is exactly
      what `TrimStart` removes. */
  lemma {:induction false} TrimStartSkips(pre: string, rest: string)
    requires forall k :: 0 <= k < |pre| ==> IsSpace(pre[k])
    requires rest != [] ==> !IsSpace(rest[0])
    ensures TrimStart(pre + rest) == rest
  {
    if pre == [] {
      assert pre + rest == rest;
    } else {
      assert (pre + rest)[1..] == pre[1..] + rest;
      TrimStartSkips(pre[1..], rest);
    }
  }

  /** Trailing whitespace after a part that ends with none is exactly what
      `TrimEnd` removes. */
  lemma {:induction false} TrimEndSkips(rest: string, post: string)
    requires forall k :: 0 <= k < |post| ==> IsSpace(post[k])
    requires rest != [] ==> !IsSpace(rest[|rest| - 1])
    ensures TrimEnd(rest + post) == rest
  {
    if post == [] {
      assert rest + post == rest;
    } else {
      var init := post[..|post| - 1];
      assert (rest + post)[..|rest + post| - 1] == rest + init;
      TrimEndSkips(rest, init);
    }
  }

  /** `Strip` is determined by its result: whitespace around a middle part that
      neither starts nor ends with whitespace is all that it removes. */
  lemma StripAround(pre: string, middle: string, post: string)
    requires forall k :: 0 <= k < |pre| ==> IsSpace(pre[k])
    requires forall k :: 0 <= k < |post| ==> IsSpace(post[k])
    requires middle != [] && !IsSpace(middle[0]) && !IsSpace(middle[|middle| - 1])
    ensures Strip(pre + middle + post) == middle
  {
    assert pre + middle + post == pre + (middle + post);
    TrimStartSkips(pre, middle + post);
    TrimEndSkips(middle, post);
  }

  // ---------------------------------------------------------------------------
  // str.rstrip('\\') and the extension test
  // ---------------------------------------------------------------------------

  /** `str.rstrip(c)`: the prefix of `s` left after removing every trailing `c`. */
  function RStripChar(s: string, c: char): (r: string)
    ensures |r| <= |s| && r == s[..|r|]
    ensures forall k :: |r| <= k < |s| ==> s[k] == c
    ensures r != [] ==> r[|r| - 1] != c
  {
    if s != [] && s[|s| - 1] == c then RStripChar(s[..|s| - 1], c) else s
  }

  /** Trailing copies of `c` after a part that does not end in `c` are exactly
      what `RStripChar` removes. */
  lemma {:induction false} RStripCharSkips(rest: string, post: string, c: char)
    requires forall k :: 0 <= k < |post| ==> post[k] == c
    requires rest != [] ==> rest[|rest| - 1] != c
    ensures RStripChar(rest + post, c) == rest
  {
    if post == [] {
      assert rest + post == rest;
    } else {
      var init := post[..|post| - 1];
      assert (rest + post)[..|rest + post| - 1] == rest + init;
      RStripCharSkips(rest, init, c);
    }
  }

  /** `t.endswith(suffix)`. */
  predicate EndsWith(t: string, suffix: string) {
    |suffix| <= |t| && forall k :: 0 <= k < |suffix| ==> t[|t| - |suffix| + k] == suffix[k]
  }

  /** `s.lower().endswith('.mp4')`. */
  predicate EndsWithMp4(s: string) {
    EndsWith(LowerString(s), Extension)
  }

  /** Whatever precedes a suffix that ends in `.mp4` does not matter. */
  lemma EndsWithMp4Suffix(a: string, b: string)
    requires EndsWithMp4(b)
    ensures EndsWithMp4(a + b)
  {
    var lb, lab := LowerString(b), LowerString(a + b);
    forall k | 0 <= k < |Extension| ensures lab[|lab| - |Extension| + k] == Extension[k] {
      var i, j := |a + b| - |Extension| + k, |b| - |Extension| + k;
      assert lb[j] == Extension[k];
      assert (a + b)[i] == b[j];
      assert lab[i] == Lower((a + b)[i]) && lb[j] == Lower(b[j]);
    }
  }

  lemma ExtensionIsMp4()
    ensures EndsWithMp4(Extension)
  {
  }

  lemma InDirectoryIsMp4()
    ensures EndsWithMp4(InDirectory)
  {
  }

  lemma DefaultIsMp4()
    ensures EndsWithMp4(Default)
  {
  }

  /** A path that passes the test ends in the digit `4`. */
  lemma EndsWithMp4Last(s: string)
    requires EndsWithMp4(s)
    ensures |s| >= 4 && s[|s| - 1] == '4'
  {
    var t := LowerString(s);
    assert t[|t| - |Extension| + 3] == Extension[3];
    assert Lower(s[|s| - 1]) == '4';
  }

  /** The test ignores letter case: `.MP4` passes, `.avi` does not. */
  lemma EndsWithMp4Case()
    ensures EndsWithMp4("clip.MP4") && !EndsWithMp4("clip.avi")
  {
    var t := LowerString("clip.avi");
    assert t[|t| - |Extension| + 1] == 'a' != Extension[1];
  }

  // ---------------------------------------------------------------------------
  // The extension fix and the whole expression
  // ---------------------------------------------------------------------------

  /** Lines 131-132: a path that ends in `.mp4` is kept; one that holds a
      backslash is taken as a directory, its trailing backslashes removed and
      `\output.mp4` appended; any other path gets `.mp4` appended. */
  function FixExtension(p: string): (r: string)
    ensures EndsWithMp4(r)
    ensures EndsWithMp4(p) ==> r == p
    ensures !EndsWithMp4(p) && '\\' !in p ==> r == p + Extension
  {
    if EndsWithMp4(p) then p
    else if '\\' in p then
      InDirectoryIsMp4();
      EndsWithMp4Suffix(RStripChar(p, '\\'), InDirectory);
      RStripChar(p, '\\') + InDirectory
    else
      ExtensionIsMp4();
      EndsWithMp4Suffix(p, Extension);
      p + Extension
  }

  /** The backslash branch: the result is the longest prefix of the path that does
      not end in a backslash, followed by `\output.mp4`; only backslashes were cut. */
  lemma DirectoryBranch(p: string)
    requires !EndsWithMp4(p) && '\\' in p
    ensures exists k ::
              && 0 <= k <= |p| && FixExtension(p) == p[..k] + InDirectory
              && (forall m :: k <= m < |p| ==> p[m] == '\\')
              && (k == 0 || p[k - 1] != '\\')
  {
    var d := RStripChar(p, '\\');
    assert FixExtension(p) == p[..|d|] + InDirectory;
  }

  /** Lines 129-132: strip the answer, default an empty one, fix the extension.
      The result always ends in `.mp4`, checked case-insensitively. */
  function Normalise(answer: string): (r: string)
    ensures EndsWithMp4(r)
  {
    var p := Strip(answer);
    FixExtension(if p == [] then Default else p)
  }

  /** An answer that is blank after stripping becomes `demo.mp4`. */
  lemma NormaliseDefault(answer: string)
    requires Strip(answer) == []
    ensures Normalise(answer) == Default
  {
    DefaultIsMp4();
  }

  /** A stripped answer that already ends in `.mp4` or `.MP4` is kept as it is. */
  lemma NormaliseKeepsMp4(answer: string)
    requires EndsWithMp4(Strip(answer))
    ensures Normalise(answer) == Strip(answer)
  {
    assert Strip(answer) != [];
  }

  /** The first character of the fixed path is that of its input, or the
      backslash of `\output.mp4` when only backslashes preceded it. */
  lemma FixExtensionFirst(p: string)
    requires p != []
    ensures FixExtension(p) != []
    ensures FixExtension(p)[0] == p[0] || FixExtension(p)[0] == '\\'
  {
    if !EndsWithMp4(p) && '\\' in p {
      var d := RStripChar(p, '\\');
      if d != [] {
        assert (d + InDirectory)[0] == d[0] == p[0];
      }
    }
  }

  /** Normalising a path that was already normalised changes nothing. */
  lemma {:induction false} NormaliseIdempotent(answer: string)
    ensures Normalise(Normalise(answer)) == Normalise(answer)
  {
    var p := Strip(answer);
    var q := if p == [] then Default else p;
    var r := Normalise(answer);
    assert q != [] && !IsSpace(q[0]) by {
      StripIsSlice(answer);
    }
    FixExtensionFirst(q);
    EndsWithMp4Last(r);
    StripUnchanged(r);
  }

  /** A bare name gains `.mp4`. */
  lemma ExampleBareName()
    ensures FixExtension("clip") == "clip.mp4"
  {
    assert !EndsWithMp4("clip") by {
      var t := LowerString("clip");
      assert t[|t| - |Extension| + 0] == 'c' != Extension[0];
    }
    assert '\\' !in "clip" by {
      forall k | 0 <= k < 4 ensures "clip"[k] != '\\' {}
    }
    assert "clip" + Extension == "clip.mp4";
  }

  /** Spaces on both sides are stripped. */
  lemma ExampleStrip()
    ensures Strip("  clip ") == "clip"
  {
    assert "  clip " == "  " + "clip" + " ";
    StripAround("  ", "clip", " ");
  }

  /** Surrounding whitespace is stripped before the extension is added. */
  lemma ExampleStripped()
    ensures Normalise("  clip ") == "clip.mp4"
  {
    ExampleStrip();
    ExampleBareName();
  }

  /** The directory example has nothing to strip and no `.mp4` at its end. */
  lemma DirectoryExampleKept()
    ensures Strip("C:\\videos\\\\") == "C:\\videos\\\\"
    ensures !EndsWithMp4("C:\\videos\\\\")
  {
    StripAround([], "C:\\videos\\\\", []);
    assert [] + "C:\\videos\\\\" + [] == "C:\\videos\\\\";
    assert !EndsWithMp4("C:\\videos\\\\") by {
      var t := LowerString("C:\\videos\\\\");
      assert t[|t| - |Extension| + 3] == '\\' != Extension[3];
    }
  }

  /** The directory example holds a backslash and ends in two, which `rstrip`
      removes. */
  lemma DirectoryExampleTrimmed()
    ensures '\\' in "C:\\videos\\\\"
    ensures RStripChar("C:\\videos\\\\", '\\') == "C:\\videos"
  {
    assert "C:\\videos\\\\"[2] == '\\';
    assert "C:\\videos" + "\\\\" == "C:\\videos\\\\";
    RStripCharSkips("C:\\videos", "\\\\", '\\');
  }

  /** A Windows directory gains `\output.mp4` once its trailing backslashes are
      removed. */
  lemma ExampleDirectory()
    ensures Normalise("C:\\videos\\\\") == "C:\\videos\\output.mp4"
  {
    DirectoryExampleKept();
    DirectoryExampleTrimmed();
    assert "C:\\videos" + InDirectory == "C:\\videos\\output.mp4";
  }
}
