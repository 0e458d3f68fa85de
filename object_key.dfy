/**
  The storage-object key derived from an uploaded file's name when a FILE
  share is created: the name is split on '.', its last piece is taken as the
  extension, the first occurrence of that text is removed from the name, and
  the result is joined with a fresh unique suffix and the extension again.
  The string operations are modelled as JavaScript defines them
  (`String.prototype.split` with a one-character separator, `replace` with a
  string pattern, which replaces only the first occurrence).
 */
module ObjectKey {

  import opened Wrappers

  /** `s.split(sep)`: the pieces between separators, always at least one. */
  function Split(s: string, sep: char): (parts: seq<string>)
    ensures |parts| >= 1
    decreases |s|
  {
    if s == [] then [""]
    else
      var rest := Split(s[1..], sep);
      if s[0] == sep then [""] + rest
      else [[s[0]] + rest[0]] + rest[1..]
  }

  /** `parts.join(sep)`, the inverse of `Split`. */
  function Join(parts: seq<string>, sep: char): string
    requires |parts| >= 1
    decreases |parts|
  {
    if |parts| == 1 then parts[0] else parts[0] + [sep] + Join(parts[1..], sep)
  }

  /** Joining the pieces of a split gives the original string back. */
  lemma {:induction false} JoinSplit(s: string, sep: char)
    ensures Join(Split(s, sep), sep) == s
    decreases |s|
  {
    if s != [] {
      JoinSplit(s[1..], sep);
      var rest := Split(s[1..], sep);
      if s[0] != sep {
        if |rest| == 1 {
          assert Split(s, sep) == [[s[0]] + rest[0]];
        } else {
          var parts := Split(s, sep);
          assert parts[1..] == rest[1..];
          assert Join(parts, sep) == [s[0]] + rest[0] + [sep] + Join(rest[1..], sep);
          assert [s[0]] + Join(rest, sep) == s;
        }
      }
    }
  }

  /** No piece of a split contains the separator. */
  lemma {:induction false} SplitPiecesHaveNoSeparator(s: string, sep: char)
    ensures forall i :: 0 <= i < |Split(s, sep)| ==> sep !in Split(s, sep)[i]
    decreases |s|
  {
    if s != [] {
      SplitPiecesHaveNoSeparator(s[1..], sep);
    }
  }

  /** The last piece of a split is a suffix of the string. */
  lemma {:induction false} LastPieceIsSuffix(s: string, sep: char)
    ensures var parts := Split(s, sep);
      |parts[|parts| - 1]| <= |s| && s[|s| - |parts[|parts| - 1]|..] == parts[|parts| - 1]
    decreases |s|
  {
    if s != [] {
      var rest := Split(s[1..], sep);
      var parts := Split(s, sep);
      if s[0] == sep || |rest| > 1 {
        LastPieceIsSuffix(s[1..], sep);
        var last := rest[|rest| - 1];
        assert parts[|parts| - 1] == last;
        assert s[|s| - |last|..] == s[1..][|s[1..]| - |last|..];
      } else {
        SplitSingle(s[1..], sep);
        assert rest == [s[1..]];
        assert parts[|parts| - 1] == [s[0]] + s[1..] == s;
      }
    }
  }

  /** The last piece of `s.split('.')`: the text after the last dot, or all of `s` without one. */
  function LastSegment(s: string): (ext: string)
    ensures '.' !in ext
    ensures |ext| <= |s| && s[|s| - |ext|..] == ext
  {
    SplitPiecesHaveNoSeparator(s, '.');
    LastPieceIsSuffix(s, '.');
    var parts := Split(s, '.');
    parts[|parts| - 1]
  }

  /** A split yields one piece exactly when the separator does not occur. */
  lemma {:induction false} SplitSingle(s: string, sep: char)
    ensures |Split(s, sep)| == 1 <==> sep !in s
    ensures sep !in s ==> Split(s, sep) == [s]
    decreases |s|
  {
    if s != [] {
      SplitSingle(s[1..], sep);
      assert s == [s[0]] + s[1..];
    }
  }

  /**
    The extension is the whole name when the name has no dot, and is preceded
    by a dot otherwise.
   */
  lemma {:induction false} LastSegmentIsSuffix(s: string)
    ensures '.' !in s ==> LastSegment(s) == s
    ensures '.' in s ==> |LastSegment(s)| < |s| && s[|s| - |LastSegment(s)| - 1] == '.'
    decreases |s|
  {
    SplitSingle(s, '.');
    if s != [] {
      LastSegmentIsSuffix(s[1..]);
      SplitSingle(s[1..], '.');
      var rest := Split(s[1..], '.');
      var parts := Split(s, '.');
      if s[0] == '.' {
        assert parts[|parts| - 1] == rest[|rest| - 1];
      } else if |rest| > 1 {
        assert parts[|parts| - 1] == rest[|rest| - 1];
        assert '.' in s by { var k :| 0 <= k < |s[1..]| && s[1..][k] == '.'; assert s[k + 1] == '.'; }
      }
    }
  }

  /**
    `LastSegment` is the one dot-free suffix that a dot precedes: any such
    suffix of a name is its extension.
   */
  lemma ExtensionIsUnique(s: string, ext: string)
    requires '.' !in ext
    requires |ext| < |s| && s[|s| - |ext| - 1] == '.' && s[|s| - |ext|..] == ext
    ensures LastSegment(s) == ext
  {
    LastSegmentIsSuffix(s);
    var e := LastSegment(s);
    assert '.' in s by { assert s[|s| - |ext| - 1] == '.'; }
  }

  /** Whether `pat` occurs in `s` starting at index `j`. */
  predicate OccursAt(s: string, pat: string, j: nat)
  {
    j + |pat| <= |s| && s[j..j + |pat|] == pat
  }

  /** Occurrences in `s` after its first character are the occurrences in `s[1..]`, shifted by one. */
  lemma OccursShifted(s: string, pat: string)
    requires s != []
    ensures forall j: nat :: 0 < j ==> (OccursAt(s, pat, j) <==> OccursAt(s[1..], pat, j - 1))
  {
  }

  /** One differing character rules an occurrence out. */
  lemma Mismatch(s: string, pat: string, j: nat, k: nat)
    requires k < |pat| && (j + |pat| <= |s| ==> s[j + k] != pat[k])
    ensures !OccursAt(s, pat, j)
  {
  }

  /** `s.indexOf(pat)`: the first index at which `pat` occurs, if any (0 for the empty pattern). */
  function IndexOf(s: string, pat: string): (r: Option<nat>)
    ensures r.Some? ==> OccursAt(s, pat, r.value)
    ensures r.Some? ==> forall j: nat :: j < r.value ==> !OccursAt(s, pat, j)
    ensures r.None? ==> forall j: nat :: !OccursAt(s, pat, j)
    decreases |s|
  {
    if |pat| <= |s| && s[..|pat|] == pat then
      Some(0)
    else if s == [] then
      None
    else
      OccursShifted(s, pat);
      match IndexOf(s[1..], pat)
      case None => None
      case Some(i) => Some(i + 1)
  }

  /** An occurrence with none before it is the one `IndexOf` finds. */
  lemma IndexOfFirst(s: string, pat: string, i: nat)
    requires OccursAt(s, pat, i)
    requires forall j: nat :: j < i ==> !OccursAt(s, pat, j)
    ensures IndexOf(s, pat) == Some(i)
  {
  }

  /** `s.replace(pat, '')`: removes the first occurrence of `pat` only; `s` unchanged if none. */
  function RemoveFirst(s: string, pat: string): (r: string)
    ensures (forall j: nat :: !OccursAt(s, pat, j)) ==> r == s
    ensures (exists j: nat :: OccursAt(s, pat, j)) ==> |r| + |pat| == |s|
  {
    match IndexOf(s, pat)
    case None => s
    case Some(i) => s[..i] + s[i + |pat|..]
  }

  /** The text removed is the earliest occurrence of the pattern, wherever later ones lie. */
  lemma RemoveFirstCutsEarliest(s: string, pat: string, i: nat)
    requires OccursAt(s, pat, i)
    requires forall j: nat :: j < i ==> !OccursAt(s, pat, j)
    ensures RemoveFirst(s, pat) == s[..i] + s[i + |pat|..]
  {
    IndexOfFirst(s, pat, i);
  }

  /** The object key built from an uploaded file's name and a fresh unique suffix. */
  function DeriveObjectKey(fileName: string, uuid: string): (key: string)
    ensures |key| == |fileName| + |uuid| + 2
    ensures key[|key| - |LastSegment(fileName)| - 1..] == "." + LastSegment(fileName)
  {
    var ext := LastSegment(fileName);
    assert OccursAt(fileName, ext, |fileName| - |ext|);
    var base := RemoveFirst(fileName, ext);
    assert base + "-" + uuid + "." + ext == (base + "-" + uuid) + ("." + ext);
    base + "-" + uuid + "." + ext
  }

  /**
    The extension is always found in the name, and the removed text is its
    first occurrence, which may lie before the suffix it was taken from.
   */
  lemma ExtensionIsFound(fileName: string)
    ensures IndexOf(fileName, LastSegment(fileName)).Some?
    ensures var i := IndexOf(fileName, LastSegment(fileName)).value;
      i <= |fileName| - |LastSegment(fileName)| &&
      RemoveFirst(fileName, LastSegment(fileName))
        == fileName[..i] + fileName[i + |LastSegment(fileName)|..]
  {
    var ext := LastSegment(fileName);
    assert OccursAt(fileName, ext, |fileName| - |ext|);
    var i := IndexOf(fileName, ext).value;
    assert i <= |fileName| - |ext|;
  }

  /**
    The derived key ends with a dot and the extension, holds "-" and the
    suffix right after what is left of the name, and is two characters longer
    than the name and suffix together, so it never equals the name.
   */
  lemma DerivedKeyShape(fileName: string, uuid: string)
    ensures |DeriveObjectKey(fileName, uuid)| == |fileName| + |uuid| + 2
    ensures DeriveObjectKey(fileName, uuid) != fileName
    ensures var key := DeriveObjectKey(fileName, uuid);
      key[|key| - |LastSegment(fileName)| - 1..] == "." + LastSegment(fileName)
    ensures var base := |fileName| - |LastSegment(fileName)|;
      DeriveObjectKey(fileName, uuid)[base..base + 1 + |uuid|] == "-" + uuid
  {
    ExtensionIsFound(fileName);
    var ext := LastSegment(fileName);
    var key := DeriveObjectKey(fileName, uuid);
    var stripped := RemoveFirst(fileName, ext);
    assert |stripped| == |fileName| - |ext|;
    assert key == stripped + ("-" + uuid) + ("." + ext);
  }

  /** The key is the name with the extension's earliest occurrence cut out, then "-", the suffix, "." and the extension. */
  lemma KeyCutsEarliest(fileName: string, uuid: string, i: nat)
    requires OccursAt(fileName, LastSegment(fileName), i)
    requires forall j: nat :: j < i ==> !OccursAt(fileName, LastSegment(fileName), j)
    ensures var ext := LastSegment(fileName);
      DeriveObjectKey(fileName, uuid) == fileName[..i] + fileName[i + |ext|..] + "-" + uuid + "." + ext
  {
    RemoveFirstCutsEarliest(fileName, LastSegment(fileName), i);
  }

  /**
    When the extension first occurs as the name's suffix, the key is the name
    with the extension cut off, so the dot before it stays: "report.pdf"
    becomes "report.-<suffix>.pdf".
   */
  lemma {:induction false} KeyKeepsTrailingDot(fileName: string, uuid: string)
    requires '.' in fileName
    requires IndexOf(fileName, LastSegment(fileName)) == Some(|fileName| - |LastSegment(fileName)|)
    ensures var base := fileName[..|fileName| - |LastSegment(fileName)|];
      base != [] && base[|base| - 1] == '.' &&
      DeriveObjectKey(fileName, uuid) == base + "-" + uuid + "." + LastSegment(fileName)
  {
    LastSegmentIsSuffix(fileName);
  }

  /** A name without a dot is its own extension and is removed whole: "README" becomes "-<suffix>.README". */
  lemma {:induction false} KeyOfDotlessName(fileName: string, uuid: string)
    requires '.' !in fileName
    ensures DeriveObjectKey(fileName, uuid) == "-" + uuid + "." + fileName
  {
    LastSegmentIsSuffix(fileName);
    assert OccursAt(fileName, fileName, 0);
  }

  /** In "report.pdf" the text "pdf" occurs at index 7 and nowhere before. */
  lemma ReportPdfOccurrences(s: string, pat: string)
    requires s == "report.pdf" && pat == "pdf"
    ensures OccursAt(s, pat, 7)
    ensures forall j: nat :: j < 7 ==> !OccursAt(s, pat, j)
  {
    Mismatch(s, pat, 0, 0);
    Mismatch(s, pat, 1, 0);
    Mismatch(s, pat, 2, 1);
    Mismatch(s, pat, 3, 0);
    Mismatch(s, pat, 4, 0);
    Mismatch(s, pat, 5, 0);
    Mismatch(s, pat, 6, 0);
  }

  /** "report.pdf" becomes "report.-<suffix>.pdf". */
  lemma ReportPdfKey(fileName: string, uuid: string)
    requires fileName == "report.pdf"
    ensures DeriveObjectKey(fileName, uuid) == "report.-" + uuid + ".pdf"
  {
    var s := fileName;
    assert s[|s| - 4] == '.' && s[|s| - 3..] == "pdf";
    ExtensionIsUnique(s, "pdf");
    ReportPdfOccurrences(s, "pdf");
    KeyCutsEarliest(s, uuid, 7);
    assert s[..7] == "report." && s[10..] == "";
  }

  /** The first occurrence is removed, not the suffix: "pdf.pdf" becomes ".pdf-<suffix>.pdf". */
  lemma FirstOccurrenceRemoved(fileName: string, uuid: string)
    requires fileName == "pdf.pdf"
    ensures DeriveObjectKey(fileName, uuid) == ".pdf-" + uuid + ".pdf"
  {
    var s := fileName;
    assert s[|s| - 4] == '.' && s[|s| - 3..] == "pdf";
    ExtensionIsUnique(s, "pdf");
    assert OccursAt(s, "pdf", 0);
    KeyCutsEarliest(s, uuid, 0);
    assert s[..0] + s[3..] == ".pdf";
  }
}
