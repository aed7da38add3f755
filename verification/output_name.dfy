/**
 * The output file name gabiel.py derives from its input path: the
 * second-to-last dot-separated segment, `_gabial` appended, every character
 * outside `[a-zA-Z_-]` removed, and `.png` appended.
 */
module OutputName {
  import opened Results

  /** How many times `c` occurs in `s`. */
  function Occurrences(s: string, c: char): nat {
    multiset(s)[c]
  }

  /** `s.split(sep)`: the pieces between the separators, empty ones included. */
  function Split(s: string, sep: char): (parts: seq<string>)
    ensures |parts| >= 1
    ensures forall i :: 0 <= i < |parts| ==> sep !in parts[i]
  {
    if s == [] then [[]]
    else
      var rest := Split(s[1..], sep);
      if s[0] == sep then [[]] + rest else [[s[0]] + rest[0]] + rest[1..]
  }

  /** `sep.join(parts)`. */
  function Join(parts: seq<string>, sep: char): string
    requires |parts| >= 1
  {
    if |parts| == 1 then parts[0] else parts[0] + [sep] + Join(parts[1..], sep)
  }

  /** Joining the pieces back with the separator gives the original string. */
  lemma {:induction false} JoinSplit(s: string, sep: char)
    ensures Join(Split(s, sep), sep) == s
  {
    if s != [] {
      var rest := Split(s[1..], sep);
      JoinSplit(s[1..], sep);
      if s[0] == sep {
        assert Split(s, sep)[1..] == rest;
      } else if |rest| == 1 {
        assert s == [s[0]] + s[1..];
      } else {
        assert Split(s, sep)[1..] == rest[1..];
        assert s == [s[0]] + s[1..];
      }
    }
  }

  /** A piece without separators, then a separator, starts the split. */
  lemma {:induction false} SplitAfter(a: string, sep: char, b: string)
    requires sep !in a
    ensures Split(a + [sep] + b, sep) == [a] + Split(b, sep)
  {
    var t := a + [sep] + b;
    if a == [] {
      assert t == [sep] + b && t[1..] == b;
    } else {
      SplitAfter(a[1..], sep, b);
      assert t[0] == a[0] && t[1..] == a[1..] + [sep] + b;
      assert a == [a[0]] + a[1..];
    }
  }

  /** A string without separators is one piece. */
  lemma {:induction false} SplitWhole(a: string, sep: char)
    requires sep !in a
    ensures Split(a, sep) == [a]
  {
    if a != [] {
      SplitWhole(a[1..], sep);
      assert a == [a[0]] + a[1..];
    }
  }

  /** There is one more piece than there are separators. */
  lemma {:induction false} SplitCount(s: string, sep: char)
    ensures |Split(s, sep)| == Occurrences(s, sep) + 1
  {
    if s != [] {
      SplitCount(s[1..], sep);
      assert s == [s[0]] + s[1..];
    }
  }

  /** The characters the pattern `[^a-zA-Z_-]` does not match. */
  predicate Allowed(c: char) {
    'a' <= c <= 'z' || 'A' <= c <= 'Z' || c == '_' || c == '-'
  }

  /** `re.compile('[^a-zA-Z_-]').sub('', s)`. */
  function RemoveDisallowed(s: string): (r: string)
    ensures forall i :: 0 <= i < |r| ==> Allowed(r[i])
  {
    if s == [] then []
    else (if Allowed(s[0]) then [s[0]] else []) + RemoveDisallowed(s[1..])
  }

  /** Every allowed character is kept as often as it occurs, every other one is dropped. */
  lemma {:induction false} RemoveDisallowedCounts(s: string, c: char)
    ensures Occurrences(RemoveDisallowed(s), c) == if Allowed(c) then Occurrences(s, c) else 0
  {
    if s != [] {
      RemoveDisallowedCounts(s[1..], c);
      assert s == [s[0]] + s[1..];
    }
  }

  /** Removing the disallowed characters works piece by piece. */
  lemma {:induction false} RemoveDisallowedAppend(a: string, b: string)
    ensures RemoveDisallowed(a + b) == RemoveDisallowed(a) + RemoveDisallowed(b)
  {
    if a == [] {
      assert a + b == b;
    } else {
      assert (a + b)[0] == a[0] && (a + b)[1..] == a[1..] + b;
      RemoveDisallowedAppend(a[1..], b);
    }
  }

  /** A string of allowed characters passes through unchanged. */
  lemma {:induction false} RemoveDisallowedKeeps(s: string)
    requires forall i :: 0 <= i < |s| ==> Allowed(s[i])
    ensures RemoveDisallowed(s) == s
  {
    if s != [] {
      RemoveDisallowedKeeps(s[1..]);
    }
  }

  const Suffix: string := "_gabial"
  const Extension: string := ".png"

  /** A dot occurs in `s` exactly when splitting at dots gives two pieces or more. */
  lemma SplitAtDot(s: string)
    ensures |Split(s, '.')| >= 2 <==> '.' in s
  {
    SplitCount(s, '.');
    assert '.' in s <==> '.' in multiset(s);
  }

  /** The clean-up leaves the suffix alone. */
  lemma CleanStem(segment: string)
    ensures RemoveDisallowed(segment + Suffix) == RemoveDisallowed(segment) + Suffix
  {
    RemoveDisallowedAppend(segment, Suffix);
    RemoveDisallowedKeeps(Suffix);
  }

  /**
   * The output name for `input`: `split(".")[-2]`, which raises IndexError
   * when `input` has no dot, then the suffix, the clean-up and the extension.
   */
  function OutputFileName(input: string): (r: Result<string>)
    ensures r.Err? <==> '.' !in input
    ensures r.Err? ==> r.error == IndexError
    ensures r.Ok? ==> |r.value| >= 11 && r.value[|r.value| - 11..] == "_gabial.png"
    ensures r.Ok? ==> forall i :: 0 <= i < |r.value| - 4 ==> Allowed(r.value[i])
  {
    var parts := Split(input, '.');
    SplitAtDot(input);
    if |parts| < 2 then Err(IndexError)
    else
      var segment := parts[|parts| - 2];
      CleanStem(segment);
      var name := RemoveDisallowed(segment + Suffix) + Extension;
      assert name == RemoveDisallowed(segment) + "_gabial.png";
      assert name[..|name| - 4] == RemoveDisallowed(segment + Suffix);
      Ok(name)
  }

  /**
   * The stem is the second-to-last dot-separated piece of the input, not
   * everything before the extension, cleaned of disallowed characters.
   */
  lemma OutputFileNameStem(input: string)
    requires '.' in input
    ensures var parts := Split(input, '.');
      |parts| >= 2 &&
      OutputFileName(input) == Ok(RemoveDisallowed(parts[|parts| - 2]) + "_gabial.png")
  {
    var parts := Split(input, '.');
    SplitAtDot(input);
    var segment := parts[|parts| - 2];
    CleanStem(segment);
    assert OutputFileName(input) == Ok(RemoveDisallowed(segment + Suffix) + Extension);
    assert RemoveDisallowed(segment) + Suffix + Extension == RemoveDisallowed(segment) + "_gabial.png";
  }

  /** The clean-up of `dir/img`. */
  lemma CleanPath()
    ensures RemoveDisallowed("dir/img") + "_gabial.png" == "dirimg_gabial.png"
  {
    assert RemoveDisallowed("dir/img") == "dirimg";
  }

  /** The stem of `dir/img.png` is `dir/img`. */
  lemma StemOfPath()
    ensures OutputFileName("dir/img.png") == Ok(RemoveDisallowed("dir/img") + "_gabial.png")
  {
    assert "dir/img.png" == "dir/img" + ['.'] + "png";
    SplitAfter("dir/img", '.', "png");
    SplitWhole("png", '.');
    OutputFileNameStem("dir/img.png");
  }

  /** Path separators vanish with the other disallowed characters. */
  lemma OutputFileNameOfPath()
    ensures OutputFileName("dir/img.png") == Ok("dirimg_gabial.png")
  {
    StemOfPath();
    CleanPath();
  }

  /** The stem of `archive.tar.gz` is `tar`. */
  lemma StemOfDoubleExtension()
    ensures OutputFileName("archive.tar.gz") == Ok(RemoveDisallowed("tar") + "_gabial.png")
  {
    assert "tar.gz" == "tar" + ['.'] + "gz";
    SplitAfter("tar", '.', "gz");
    SplitWhole("gz", '.');
    assert "archive.tar.gz" == "archive" + ['.'] + "tar.gz";
    SplitAfter("archive", '.', "tar.gz");
    OutputFileNameStem("archive.tar.gz");
  }

  /** The clean-up of `tar`. */
  lemma CleanTar()
    ensures RemoveDisallowed("tar") + "_gabial.png" == "tar_gabial.png"
  {
    assert RemoveDisallowed("tar") == "tar";
  }

  /** Only the second-to-last piece survives, not everything before the extension. */
  lemma OutputFileNameOfDoubleExtension()
    ensures OutputFileName("archive.tar.gz") == Ok("tar_gabial.png")
  {
    StemOfDoubleExtension();
    CleanTar();
  }

  /** A name without a dot makes `split(".")[-2]` raise. */
  lemma OutputFileNameWithoutDot()
    ensures OutputFileName("README") == Err(IndexError)
  {
  }
}
