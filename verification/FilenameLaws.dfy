/** What every canonical file name satisfies, for every suggested name. */
module FilenameLaws {
  import opened Base
  import opened Characters
  import Utf8
  import opened Filenames

  /** A name that is one path segment and free of control and reserved characters. */
  predicate Clean(name: string) {
    name !in {"", ".", ".."} && Allowed(name)
  }

  /** A clean name without blanks around it or a dot behind it. */
  predicate Tidy(name: string) {
    Clean(name) && !IsWhitespace(name[0]) && !IsWhitespace(Last(name)) && Last(name) != '.'
  }

  lemma AllowedMeans(s: string)
    ensures Allowed(s) <==> forall c :: c in s ==> !Forbidden(c)
  {
  }

  lemma SanitizedClean(filename: string)
    ensures Allowed(Sanitized(filename))
    ensures Sanitized(filename) != "" ==> Last(Sanitized(filename)) !in {'.', ' '} && !IsWhitespace(Sanitized(filename)[0])
  {
    var replaced := Replaced(Leaf(filename));
    var trimmed := Trim(replaced);
    AllowedMeans(replaced);
    AllowedMeans(trimmed);
  }

  /** A name splits into its stem and its dotted extension. */
  lemma StemAndExtension(name: string)
    ensures name == Stem(name) + DottedExtension(name)
    ensures Extension(name).Some? ==> Stem(name) != "" && forall k :: 0 <= k < |Extension(name).value| ==> Extension(name).value[k] != '.'
  {
  }

  /** Conversely, a non-empty stem and a part without dots are what such a name splits into. */
  lemma SplitsBack(stem: string, extension: string)
    requires stem != "" && forall k :: 0 <= k < |extension| ==> extension[k] != '.'
    ensures Stem(stem + "." + extension) == stem && Extension(stem + "." + extension) == Some(extension)
  {
    var name := stem + "." + extension;
    var dot := LastDot(name);
    assert name[|stem|] == '.';
    assert forall k :: |stem| < k < |name| ==> name[k] == extension[k - |stem| - 1];
    assert dot == Some(|stem|);
  }

  lemma RenamedPlain(name: string)
    requires name != "" && Allowed(name) && Extension(name).None?
    ensures Allowed(Renamed(name)) && Last(Renamed(name)) == '-' && |Renamed(name)| >= 2
  {
    assert Renamed(name) == name + "-";
    AllowedMeans(name);
    AllowedMeans(Renamed(name));
  }

  lemma AllowedConcat(a: string, b: string)
    requires Allowed(a) && Allowed(b)
    ensures Allowed(a + b) && (b != "" ==> Last(a + b) == Last(b))
  {
  }

  lemma HyphenAllowed(stem: string, extension: string)
    requires Allowed(stem + ("." + extension)) && extension != ""
    ensures Allowed(stem + "-" + ("." + extension)) && Last(stem + "-" + ("." + extension)) == Last(extension)
  {
    var name := stem + ("." + extension);
    assert name[..|stem|] == stem && name[|stem|..] == "." + extension;
    PartAllowed(name, 0, |stem|);
    PartAllowed(name, |stem|, |name|);
    AllowedConcat(stem, "-");
    AllowedConcat(stem + "-", "." + extension);
  }

  lemma RenamedDotted(name: string)
    requires name != "" && Allowed(name) && Extension(name).Some? && Extension(name).value != ""
    ensures Allowed(Renamed(name)) && Last(Renamed(name)) == Last(name) && |Renamed(name)| >= 3
  {
    StemAndExtension(name);
    HyphenAllowed(Stem(name), Extension(name).value);
  }

  lemma RenamedClean(name: string)
    requires name != "" && Allowed(name) && Last(name) !in {'.', ' '}
    ensures Clean(Renamed(name)) && Last(Renamed(name)) !in {'.', ' '}
  {
    if Extension(name).None? {
      RenamedPlain(name);
    } else {
      StemAndExtension(name);
      assert Extension(name).value != "" by {
        assert Last(name) == Last(DottedExtension(name));
      }
      RenamedDotted(name);
    }
  }

  lemma NamedClean(sanitized: string, reserved: bool)
    requires Allowed(sanitized) && (sanitized != "" ==> Last(sanitized) !in {'.', ' '} && !IsWhitespace(sanitized[0]))
    ensures Clean(Named(sanitized, reserved)) && Last(Named(sanitized, reserved)) !in {'.', ' '}
    ensures !IsWhitespace(Named(sanitized, reserved)[0])
  {
    if sanitized !in {"", ".", ".."} && reserved {
      RenamedClean(sanitized);
      StemAndExtension(sanitized);
      assert Stem(sanitized) != "" && Renamed(sanitized)[0] == Stem(sanitized)[0] == sanitized[0];
    }
  }

  lemma FullNameClean(filename: string)
    ensures Clean(FullName(filename))
    ensures Last(FullName(filename)) !in {'.', ' '} && !IsWhitespace(FullName(filename)[0])
  {
    SanitizedClean(filename);
    NamedClean(Sanitized(filename), IsReserved(Sanitized(filename)));
  }

  lemma {:induction false} ScalarCount(s: string)
    ensures |s| <= ByteLength(s) <= 4 * |s|
  {
    if s != "" {
      ScalarCount(s[1..]);
    }
  }

  lemma JoinedLength(a: string, b: string)
    ensures ByteLength(a + [ELLIPSIS] + b) == ByteLength(a) + 3 + ByteLength(b)
    ensures ByteLength([ELLIPSIS]) == 3
  {
    EncodeConcat(a, [ELLIPSIS]);
    EncodeConcat(a + [ELLIPSIS], b);
    assert Utf8.Encode([ELLIPSIS]) == Utf8.EncodeScalar(ELLIPSIS) + [];
  }

  lemma JoinedClean(a: string, b: string)
    requires Allowed(a) && Allowed(b)
    ensures Clean(a + [ELLIPSIS] + b)
  {
    assert (a + [ELLIPSIS] + b)[|a|] == ELLIPSIS;
    AllowedMeans(a);
    AllowedMeans(b);
    AllowedMeans(a + [ELLIPSIS] + b);
  }

  lemma PartAllowed(name: string, i: nat, j: nat)
    requires Allowed(name) && i <= j <= |name|
    ensures Allowed(name[i..j])
  {
  }

  lemma BareCutClean(name: string)
    requires Clean(name) && ByteLength(name) > MAX_FILENAME_BYTES
    ensures Clean(Truncated(name, MAX_FILENAME_BYTES)) && ByteLength(Truncated(name, MAX_FILENAME_BYTES)) <= MAX_FILENAME_BYTES
  {
    TruncatedIsLongest(name, MAX_FILENAME_BYTES);
    ScalarCount(Truncated(name, MAX_FILENAME_BYTES));
    PartAllowed(name, 0, |Truncated(name, MAX_FILENAME_BYTES)|);
  }

  /** The marked cut: as much of the stem as fits before the ellipsis and the extension. */
  lemma MarkedCut(stem: string, extension: string)
    requires BaseBudget(extension) > 0
    ensures var kept := Truncated(stem, BaseBudget(extension));
      && kept <= stem && ByteLength(kept + [ELLIPSIS] + extension) <= MAX_FILENAME_BYTES
      && forall k :: |kept| < k <= |stem| ==> ByteLength(stem[..k] + [ELLIPSIS] + extension) > MAX_FILENAME_BYTES
  {
    var kept := Truncated(stem, BaseBudget(extension));
    TruncatedIsLongest(stem, BaseBudget(extension));
    JoinedLength(kept, extension);
    forall k | |kept| < k <= |stem| ensures ByteLength(stem[..k] + [ELLIPSIS] + extension) > MAX_FILENAME_BYTES {
      JoinedLength(stem[..k], extension);
    }
  }

  lemma BaseIsStem(name: string)
    ensures |DottedExtension(name)| <= |name| && name[..|name| - |DottedExtension(name)|] == Stem(name)
  {
    StemAndExtension(name);
  }

  /** Cutting keeps a name clean and leaves at most 255 bytes. */
  lemma ShortenedClean(name: string)
    requires Clean(name)
    ensures Clean(Shortened(name)) && ByteLength(Shortened(name)) <= MAX_FILENAME_BYTES
  {
    if ByteLength(name) > MAX_FILENAME_BYTES {
      var stem, extension := Stem(name), DottedExtension(name);
      BaseIsStem(name);
      StemAndExtension(name);
      if BaseBudget(extension) == 0 {
        BareCutClean(name);
      } else {
        MarkedCut(stem, extension);
        PartAllowed(name, 0, |Truncated(stem, BaseBudget(extension))|);
        PartAllowed(name, |stem|, |name|);
        JoinedClean(Truncated(stem, BaseBudget(extension)), extension);
      }
    }
  }

  /** For every suggestion the canonical name is one clean segment of at most 255 bytes. */
  lemma CanonicalNameIsClean(filename: string)
    ensures Clean(CanonicalName(filename))
    ensures ByteLength(CanonicalName(filename)) <= MAX_FILENAME_BYTES
  {
    FullNameClean(filename);
    ShortenedClean(FullName(filename));
  }

  lemma CutName(name: string)
    requires ByteLength(name) > MAX_FILENAME_BYTES && BaseBudget(DottedExtension(name)) > 0
    ensures var kept := Truncated(Stem(name), BaseBudget(DottedExtension(name)));
            Shortened(name) == kept + [ELLIPSIS] + DottedExtension(name)
  {
    BaseIsStem(name);
  }

  lemma CutKeepsExtension(name: string)
    requires ByteLength(name) > MAX_FILENAME_BYTES && Extension(name).Some? && ByteLength(DottedExtension(name)) <= 251
    ensures Extension(Shortened(name)) == Extension(name)
    ensures CutOf(Shortened(name), Stem(name), DottedExtension(name))
  {
    var stem, extension := Stem(name), DottedExtension(name);
    JoinedLength("", "");
    CutName(name);
    MarkedCut(stem, extension);
    var kept := Truncated(stem, BaseBudget(extension));
    CutIntro(kept, stem, extension);
    MarkedExtension(kept, name);
  }

  lemma MarkedExtension(kept: string, name: string)
    requires Extension(name).Some?
    ensures Extension(kept + [ELLIPSIS] + DottedExtension(name)) == Extension(name)
  {
    StemAndExtension(name);
    SplitsBack(kept + [ELLIPSIS], Extension(name).value);
    assert kept + [ELLIPSIS] + DottedExtension(name) == (kept + [ELLIPSIS]) + "." + Extension(name).value;
  }

  /**
    A name that is too long keeps its extension whenever that has at most 251 bytes with its
    dot: only the stem is cut, between characters, and no shorter cut would have fitted.
   */
  lemma ExtensionKept(filename: string)
    ensures var name := FullName(filename);
            ByteLength(name) > MAX_FILENAME_BYTES && Extension(name).Some? && ByteLength(DottedExtension(name)) <= 251 ==>
              && Extension(CanonicalName(filename)) == Extension(name)
              && CutOf(CanonicalName(filename), Stem(name), DottedExtension(name))
  {
    var name := FullName(filename);
    if ByteLength(name) > MAX_FILENAME_BYTES && Extension(name).Some? && ByteLength(DottedExtension(name)) <= 251 {
      CutKeepsExtension(name);
    }
  }

  /** `r` is the longest prefix of the stem that fits with the ellipsis and the extension, followed by them. */
  ghost predicate CutOf(r: string, stem: string, extension: string) {
    exists n: nat :: CutAt(r, stem, extension, n)
  }

  predicate CutAt(r: string, stem: string, extension: string, n: nat) {
    && n <= |stem| && r == stem[..n] + [ELLIPSIS] + extension && ByteLength(r) <= MAX_FILENAME_BYTES
    && forall k :: n < k <= |stem| ==> ByteLength(stem[..k] + [ELLIPSIS] + extension) > MAX_FILENAME_BYTES
  }

  lemma CutIntro(kept: string, stem: string, extension: string)
    requires kept <= stem && ByteLength(kept + [ELLIPSIS] + extension) <= MAX_FILENAME_BYTES
    requires forall k :: |kept| < k <= |stem| ==> ByteLength(stem[..k] + [ELLIPSIS] + extension) > MAX_FILENAME_BYTES
    ensures CutOf(kept + [ELLIPSIS] + extension, stem, extension)
  {
    assert stem[..|kept|] == kept;
    assert CutAt(kept + [ELLIPSIS] + extension, stem, extension, |kept|);
  }

  /** A name that was not cut begins with no blank and ends with no dot or space. */
  lemma CanonicalNameIsTrimmed(filename: string)
    ensures ByteLength(FullName(filename)) <= MAX_FILENAME_BYTES ==>
      !IsWhitespace(CanonicalName(filename)[0]) && Last(CanonicalName(filename)) !in {'.', ' '}
  {
    FullNameClean(filename);
  }

  // ---------------------------------------------------------------- directories

  lemma {:induction false} SlashesSplit(a: string, b: string)
    ensures WithSlashes(a + b) == WithSlashes(a) + WithSlashes(b)
  {
    if a == "" {
      assert a + b == b;
    } else {
      assert (a + b)[1..] == a[1..] + b;
      SlashesSplit(a[1..], b);
    }
  }

  lemma {:induction false} SlashesPlain(s: string)
    ensures |WithSlashes(s)| == |s|
    ensures forall k :: 0 <= k < |s| ==> WithSlashes(s)[k] == if s[k] == '\\' then '/' else s[k]
  {
    if s != "" { SlashesPlain(s[1..]); }
  }

  predicate Separator(c: char) {
    c == '/' || c == '\\'
  }

  lemma SegmentBehind(path: string, segment: string)
    requires segment !in {"", ".", ".."} && forall k :: 0 <= k < |segment| ==> segment[k] != '/'
    ensures FileName(path + "/" + segment) == Some(segment) && FileName(segment) == Some(segment)
  {
    var whole := path + "/" + segment;
    var slash := LastSlash(whole);
    assert whole[|path|] == '/';
    assert forall k :: |path| < k < |whole| ==> whole[k] == segment[k - |path| - 1];
    assert slash == Some(|path|);
    assert whole[|path| + 1..] == segment;
    assert LastSlash(segment).None?;
  }

  /** Only the last segment counts, whichever of the two separators stands before it. */
  lemma DirectoriesIgnored(directories: string, separator: char, leaf: string)
    requires Separator(separator) && leaf !in {"", ".", ".."} && forall k :: 0 <= k < |leaf| ==> !Separator(leaf[k])
    ensures CanonicalName(directories + [separator] + leaf) == CanonicalName(leaf)
  {
    SlashesSplit(directories + [separator], leaf);
    SlashesSplit(directories, [separator]);
    SlashesPlain([separator]);
    SlashesPlain(leaf);
    assert WithSlashes([separator]) == "/" && WithSlashes(leaf) == leaf;
    SegmentBehind(WithSlashes(directories), leaf);
    assert Leaf(directories + [separator] + leaf) == Leaf(leaf);
  }

  // ---------------------------------------------------------------- names that stay

  lemma {:induction false} NothingReplaced(s: string)
    requires Allowed(s)
    ensures Replaced(s) == s
  {
    assert forall k :: 0 <= k < |s| ==> Replaced(s)[k] == s[k];
  }

  lemma SanitizedStays(name: string)
    requires Tidy(name)
    ensures Sanitized(name) == name
  {
    assert name[|name| - 1] != '.' && forall k :: 0 <= k < |name| ==> !Forbidden(name[k]);
    PlainLeaf(name);
    NothingReplaced(name);
    TidyStays(name);
  }

  /** A clean name that fits, has no blank around it or dot behind it, and names no device is kept as it is. */
  lemma CleanNameStays(name: string)
    requires Tidy(name) && ByteLength(name) <= MAX_FILENAME_BYTES && !IsReserved(name)
    ensures CanonicalName(name) == name
  {
    SanitizedStays(name);
  }

  // ---------------------------------------------------------------- what replaces what

  /** The characters that no file name may hold on any of the supported systems. */
  predicate Reserved(c: char) {
    c < ' ' || c in {'<', '>', ':', '\"', '/', '\\', '|', '?', '*'} || 127 <= c as int <= 159
  }

  /** `kept` is the text from i to j with hyphens for the reserved characters; around it are blanks, and dots behind it. */
  predicate CoreAt(kept: string, s: string, i: nat, j: nat) {
    && i <= j <= |s| && |kept| == j - i
    && (forall k :: i <= k < j ==> kept[k - i] == if Reserved(s[k]) then '-' else s[k])
    && (forall k :: 0 <= k < i ==> IsWhitespace(s[k]) && !Reserved(s[k]))
    && (forall k :: j <= k < |s| ==> (IsWhitespace(s[k]) || s[k] == '.') && !Reserved(s[k]))
    && (kept != "" ==> !IsWhitespace(kept[0]) && Last(kept) !in {'.', ' '})
  }

  ghost predicate Core(kept: string, s: string) {
    exists i: nat, j: nat :: CoreAt(kept, s, i, j)
  }

  lemma ReservedIsForbidden(c: char)
    ensures Reserved(c) <==> Forbidden(c)
  {
  }

  lemma PrefixOfSuffix(s: string, rest: string, t: string)
    requires |rest| <= |s| && rest == s[|s| - |rest|..] && t <= rest
    requires forall k :: |t| <= k < |rest| ==> IsWhitespace(rest[k])
    ensures var i := |s| - |rest|; t == s[i..i + |t|] && forall k :: i + |t| <= k < |s| ==> IsWhitespace(s[k])
  {
    var i := |s| - |rest|;
    assert forall k :: i <= k < |s| ==> s[k] == rest[k - i];
  }

  lemma TrimParts(s: string) returns (rest: string)
    ensures |rest| <= |s| && rest == s[|s| - |rest|..] && Trim(s) <= rest
    ensures forall k :: 0 <= k < |s| - |rest| ==> IsWhitespace(s[k])
    ensures forall k :: |Trim(s)| <= k < |rest| ==> IsWhitespace(rest[k])
  {
    rest := TrimStart(s);
    TrimBothEnds(s);
  }

  /** Where in a text stands what `trim` leaves of it, between blanks. */
  lemma TrimCuts(s: string, t: string) returns (i: nat, j: nat)
    requires t == Trim(s)
    ensures i <= j <= |s| && t == s[i..j]
    ensures (forall k :: 0 <= k < i ==> IsWhitespace(s[k])) && (forall k :: j <= k < |s| ==> IsWhitespace(s[k]))
  {
    var rest := TrimParts(s);
    PrefixOfSuffix(s, rest, t);
    i, j := |s| - |rest|, |s| - |rest| + |t|;
  }

  lemma CoreFrom(leaf: string, replaced: string, kept: string, i: nat, j: nat)
    requires |replaced| == |leaf| && i <= j <= |leaf| && kept <= replaced[i..j]
    requires forall k :: 0 <= k < |leaf| ==> replaced[k] == if Reserved(leaf[k]) then '-' else leaf[k]
    requires (forall k :: 0 <= k < i ==> IsWhitespace(replaced[k])) && (forall k :: j <= k < |leaf| ==> IsWhitespace(replaced[k]))
    requires forall k :: i + |kept| <= k < j ==> replaced[k] in {'.', ' '}
    requires kept != "" ==> !IsWhitespace(kept[0]) && Last(kept) !in {'.', ' '}
    ensures CoreAt(kept, leaf, i, i + |kept|)
  {
    assert forall k :: i <= k < i + |kept| ==> kept[k - i] == replaced[i..j][k - i] == replaced[k];
  }

  lemma ReplacedReserved(s: string)
    ensures forall k :: 0 <= k < |s| ==> Replaced(s)[k] == if Reserved(s[k]) then '-' else s[k]
  {
    forall k | 0 <= k < |s| ensures Reserved(s[k]) <==> Forbidden(s[k]) { ReservedIsForbidden(s[k]); }
  }

  lemma CoreOf(leaf: string, replaced: string, trimmed: string, kept: string)
    requires |replaced| == |leaf| && trimmed == Trim(replaced) && kept == TrimDotsAndSpaces(trimmed)
    requires forall k :: 0 <= k < |leaf| ==> replaced[k] == if Reserved(leaf[k]) then '-' else leaf[k]
    ensures Core(kept, leaf)
  {
    var i, j := TrimCuts(replaced, trimmed);
    TrimmedTail(trimmed);
    assert forall k :: i + |kept| <= k < j ==> replaced[k] == trimmed[k - i];
    CoreFrom(leaf, replaced, kept, i, j);
  }

  /** The sanitised name is the last segment with hyphens for reserved characters, without the blanks around it and the dots behind. */
  lemma SanitizedIsCore(filename: string)
    ensures Core(Sanitized(filename), Leaf(filename))
  {
    var replaced := Replaced(Leaf(filename));
    ReplacedReserved(Leaf(filename));
    CoreOf(Leaf(filename), replaced, Trim(replaced), Sanitized(filename));
  }

  lemma PlainLeaf(name: string)
    requires name !in {"", ".", ".."} && forall k :: 0 <= k < |name| ==> !Separator(name[k])
    ensures Leaf(name) == name
  {
    SlashesPlain(name);
    assert WithSlashes(name) == name;
    assert LastSlash(name).None?;
  }

  /** A name of one segment whose reserved characters are replaced, if that makes it tidy, fitting and no device. */
  lemma ReplacedNameStays(name: string, kept: string)
    requires |name| == |kept| && (forall k :: 0 <= k < |name| ==> !Separator(name[k]))
    requires forall k :: 0 <= k < |name| ==> kept[k] == if Reserved(name[k]) then '-' else name[k]
    requires Tidy(kept) && ByteLength(kept) <= MAX_FILENAME_BYTES && !IsReserved(kept)
    ensures CanonicalName(name) == kept
  {
    assert name[|name| - 1] != '.';
    PlainLeaf(name);
    ReplacedReserved(name);
    assert Replaced(name) == kept;
    TidyStays(kept);
  }

  lemma TidyStays(kept: string)
    requires Tidy(kept)
    ensures TrimDotsAndSpaces(Trim(kept)) == kept && kept !in {"", ".", ".."}
  {
  }

  /** The canonical name of `a:b.txt`. */
  lemma ReplacedExample(name: string, kept: string)
    requires name == ['a', ':', 'b', '.', 't', 'x', 't'] && kept == ['a', '-', 'b', '.', 't', 'x', 't']
    ensures CanonicalName(name) == kept
  {
    PlainExample(kept);
    ReplacedNameStays(name, kept);
  }

  lemma HyphenatedIsNoDevice(chunk: string, rest: string)
    requires !HasDot(chunk) && |chunk| == 3 && chunk[1] == '-' && chunk[2] !in {'.', ' '} && rest != "" && rest[0] == '.'
    ensures !IsReserved(chunk + rest)
  {
    ChunkEnds(chunk, rest);
    assert FirstChunk(rest) == "" && chunk + "" == chunk && TrimDotsAndSpaces(chunk) == chunk;
    var upper := Uppercase(chunk);
    assert upper[1] == '-' && |upper| == 3;
    if Device(upper) {
      ThreeLetterDevice(upper);
    }
  }

  lemma ThreeLetterDevice(s: string)
    requires Device(s) && |s| == 3
    ensures s[1] != '-'
  {
  }

  lemma PlainExample(name: string)
    requires name == ['a', '-', 'b', '.', 't', 'x', 't']
    ensures Tidy(name) && !IsReserved(name) && ByteLength(name) <= MAX_FILENAME_BYTES
  {
    HyphenatedIsNoDevice(name[..3], name[3..]);
    assert name == name[..3] + name[3..];
    AsciiLength(name);
  }

  // ---------------------------------------------------------------- device names

  lemma {:induction false} ChunkEnds(a: string, b: string)
    ensures (forall k :: 0 <= k < |a| ==> a[k] != '.') ==> FirstChunk(a + b) == a + FirstChunk(b)
    ensures (exists k :: 0 <= k < |a| && a[k] == '.') ==> FirstChunk(a + b) == FirstChunk(a)
  {
    if a == "" {
      assert a + b == b;
    } else {
      assert (a + b)[1..] == a[1..] + b;
      ChunkEnds(a[1..], b);
      assert forall k :: 1 <= k < |a| ==> a[1..][k - 1] == a[k];
    }
  }

  lemma MarkIsNoDevice(s: string)
    requires s != "" && Last(s) in {'-', ELLIPSIS}
    ensures !Device(Uppercase(TrimDotsAndSpaces(s)))
  {
    var upper := Uppercase(s);
    assert TrimDotsAndSpaces(s) == s;
    assert upper[|upper| - 1] in {'-', ELLIPSIS};
  }

  lemma ChunkKept(stem: string, extension: string)
    requires HasDot(stem)
    ensures FirstChunk(stem + "-" + extension) == FirstChunk(stem + extension)
  {
    ChunkEnds(stem, "-" + extension);
    ChunkEnds(stem, extension);
    assert stem + "-" + extension == stem + ("-" + extension);
  }

  lemma ChunkHyphened(stem: string, extension: string)
    requires !HasDot(stem) && (extension == "" || extension[0] == '.')
    ensures FirstChunk(stem + "-" + extension) == stem + "-"
  {
    ChunkEnds(stem + "-", extension);
    assert FirstChunk(extension) == "";
    assert stem + "-" + "" == stem + "-";
  }

  /** The hyphen behind the stem takes a device name away exactly when the stem has no dot of its own. */
  lemma RenamedReservedExactly(name: string)
    requires IsReserved(name)
    ensures IsReserved(Renamed(name)) <==> HasDot(Stem(name))
  {
    StemAndExtension(name);
    var stem, extension := Stem(name), DottedExtension(name);
    if HasDot(stem) {
      ChunkKept(stem, extension);
    } else {
      ChunkHyphened(stem, extension);
      MarkIsNoDevice(stem + "-");
    }
  }

  predicate HasDot(s: string) {
    exists k :: 0 <= k < |s| && s[k] == '.'
  }

  lemma DeviceLength(s: string)
    ensures Device(s) ==> 3 <= |s| <= 7
  {
  }

  /** What stands before the first dot decides. */
  lemma LongChunkIsNoDevice(chunk: string, rest: string)
    requires !HasDot(chunk) && |chunk| > 7 && Last(chunk) !in {'.', ' '} && (rest == "" || rest[0] == '.')
    ensures !IsReserved(chunk + rest)
  {
    ChunkEnds(chunk, rest);
    assert FirstChunk(rest) == "";
    assert chunk + "" == chunk && TrimDotsAndSpaces(chunk) == chunk;
    DeviceLength(Uppercase(chunk));
  }

  lemma FallbackIsNoDevice()
    ensures !IsReserved(FALLBACK)
  {
    LongChunkIsNoDevice(FALLBACK, "");
    assert FALLBACK + "" == FALLBACK;
  }

  lemma DotsAreNoDevice(name: string)
    requires name in {"", ".", ".."}
    ensures !IsReserved(name)
  {
    assert FirstChunk(name) == "";
    DeviceLength(Uppercase(TrimDotsAndSpaces("")));
  }

  lemma NamedReservedExactly(sanitized: string)
    ensures IsReserved(Named(sanitized, IsReserved(sanitized))) <==> IsReserved(sanitized) && HasDot(Stem(sanitized))
  {
    if sanitized in {"", ".", ".."} {
      FallbackIsNoDevice();
      DotsAreNoDevice(sanitized);
    } else if IsReserved(sanitized) {
      RenamedReservedExactly(sanitized);
    }
  }

  lemma {:induction false} TrimmedTail(s: string)
    ensures forall k :: |TrimDotsAndSpaces(s)| <= k < |s| ==> s[k] in {'.', ' '}
  {
    if s != "" && Last(s) in {'.', ' '} {
      TrimmedTail(Front(s));
      assert forall k :: 0 <= k < |s| - 1 ==> s[k] == Front(s)[k];
    }
  }

  lemma {:induction false} TrimStops(s: string, n: nat)
    requires 0 < n <= |s| && s[n - 1] !in {'.', ' '} && forall k :: n <= k < |s| ==> s[k] in {'.', ' '}
    ensures TrimDotsAndSpaces(s) == s[..n]
  {
    if n < |s| {
      assert Last(s) in {'.', ' '};
      TrimStops(Front(s), n);
      assert Front(s)[..n] == s[..n];
    } else {
      assert s[..n] == s;
    }
  }

  /** A device name with spaces behind it and nothing else. */
  ghost predicate Padded(s: string) {
    exists n: nat :: PaddedAt(s, n)
  }

  predicate PaddedAt(s: string, n: nat) {
    n <= |s| && Device(Uppercase(s[..n])) && forall k :: n <= k < |s| ==> s[k] == ' '
  }

  lemma DeviceLast(s: string)
    requires Device(s)
    ensures s != "" && s[|s| - 1] !in {'.', ' '}
  {
    if |s| == 4 && s[..3] in {"COM", "LPT"} {
      assert s[3] !in {'.', ' '};
    } else if |s| == 3 {
      assert s[2] !in {'.', ' '};
    }
  }

  lemma CasedDeviceLast(s: string, upper: string)
    requires Device(upper) && |upper| == |s| && forall k :: 0 <= k < |s| && s[k] in {'.', ' '} ==> upper[k] == s[k]
    ensures s != "" && s[|s| - 1] !in {'.', ' '}
  {
    DeviceLast(upper);
  }

  lemma UppercaseKeeps(s: string)
    ensures |Uppercase(s)| == |s| && forall k :: 0 <= k < |s| && s[k] in {'.', ' '} ==> Uppercase(s)[k] == s[k]
  {
  }

  lemma DeviceEnds(s: string, upper: string)
    requires upper == Uppercase(s) && Device(upper)
    ensures s != "" && s[|s| - 1] !in {'.', ' '}
  {
    UppercaseKeeps(s);
    CasedDeviceLast(s, upper);
  }

  lemma {:induction false} WholeChunk(s: string)
    requires !HasDot(s)
    ensures FirstChunk(s) == s
  {
    ChunkEnds(s, "");
    assert s + "" == s && FirstChunk("") == "";
  }

  /** A name without a dot is a device exactly when only spaces stand behind the device name. */
  lemma DotlessReservedExactly(s: string)
    requires !HasDot(s)
    ensures IsReserved(s) <==> Padded(s)
  {
    WholeChunk(s);
    if IsReserved(s) {
      TrimmedTail(s);
      var n := |TrimDotsAndSpaces(s)|;
      assert s[..n] == TrimDotsAndSpaces(s);
      assert PaddedAt(s, n);
    }
    if Padded(s) {
      var n: nat :| PaddedAt(s, n);
      DeviceEnds(s[..n], Uppercase(s[..n]));
      TrimStops(s, n);
    }
  }

  /** A text that keeps the first dot of a name keeps its device. */
  lemma PrefixReserved(prefix: string, rest: string, name: string)
    requires HasDot(prefix) && prefix <= name
    ensures IsReserved(prefix + rest) <==> IsReserved(name)
  {
    ChunkEnds(prefix, rest);
    ChunkEnds(prefix, name[|prefix|..]);
    assert name == prefix + name[|prefix|..];
  }

  lemma MarkedIsNoDevice(kept: string, extension: string)
    requires !HasDot(kept) && (extension == "" || extension[0] == '.')
    ensures !IsReserved(kept + [ELLIPSIS] + extension)
  {
    ChunkEnds(kept + [ELLIPSIS], extension);
    assert FirstChunk(extension) == "";
    assert kept + [ELLIPSIS] + "" == kept + [ELLIPSIS];
    MarkIsNoDevice(kept + [ELLIPSIS]);
  }

  lemma BareCutReserved(name: string, cut: string)
    requires cut <= name
    ensures IsReserved(cut) <==> if HasDot(cut) then IsReserved(name) else Padded(cut)
  {
    if HasDot(cut) {
      PrefixReserved(cut, "", name);
      assert cut + "" == cut;
    } else {
      DotlessReservedExactly(cut);
    }
  }

  lemma MarkedCutReserved(name: string, kept: string, extension: string)
    requires kept <= name && (extension == "" || extension[0] == '.')
    ensures IsReserved(kept + [ELLIPSIS] + extension) <==> IsReserved(name) && HasDot(kept)
  {
    if HasDot(kept) {
      PrefixReserved(kept, [ELLIPSIS] + extension, name);
      assert kept + ([ELLIPSIS] + extension) == kept + [ELLIPSIS] + extension;
    } else {
      MarkedIsNoDevice(kept, extension);
    }
  }

  /** What the cut makes of a name: a device stays one while its first dot is kept, and a bare cut can make a new one. */
  lemma ShortenedReservedExactly(name: string)
    requires ByteLength(name) > MAX_FILENAME_BYTES
    ensures var budget, cut := BaseBudget(DottedExtension(name)), Truncated(name, MAX_FILENAME_BYTES);
            IsReserved(Shortened(name)) <==>
              if budget > 0 then IsReserved(name) && HasDot(Truncated(Stem(name), budget))
              else if HasDot(cut) then IsReserved(name) else Padded(cut)
  {
    BaseIsStem(name);
    if BaseBudget(DottedExtension(name)) == 0 {
      BareCutReserved(name, Truncated(name, MAX_FILENAME_BYTES));
    } else {
      MarkedCutReserved(name, Truncated(Stem(name), BaseBudget(DottedExtension(name))), DottedExtension(name));
    }
  }

  /** The sanitised name is a device with a second extension, so the hyphen comes too late. */
  predicate TwoExtensions(filename: string) {
    IsReserved(Sanitized(filename)) && HasDot(Stem(Sanitized(filename)))
  }

  /**
    When the canonical name of any suggestion is a device name after all: the sanitised name
    is a device with two extensions and the cut leaves its first dot, or the name is cut in
    front of its first dot, without a mark, behind a device name and spaces.
   */
  lemma CanonicalReservedExactly(filename: string)
    ensures var name := FullName(filename);
            var budget, cut := BaseBudget(DottedExtension(name)), Truncated(name, MAX_FILENAME_BYTES);
            IsReserved(CanonicalName(filename)) <==>
              if ByteLength(name) <= MAX_FILENAME_BYTES then TwoExtensions(filename)
              else if budget > 0 then TwoExtensions(filename) && HasDot(Truncated(Stem(name), budget))
              else if HasDot(cut) then TwoExtensions(filename)
              else Padded(cut)
  {
    NamedReservedExactly(Sanitized(filename));
    if ByteLength(FullName(filename)) > MAX_FILENAME_BYTES {
      ShortenedReservedExactly(FullName(filename));
    }
  }

  lemma DeviceChunk(name: string, rest: string)
    requires name == "con" + rest && rest != "" && rest[0] == '.'
    ensures IsReserved(name)
  {
    ChunkEnds("con", rest);
    assert FirstChunk(name) == "con";
    assert Uppercase("con") == "CON";
  }

  lemma {:induction false} AsciiLength(s: string)
    requires forall k :: 0 <= k < |s| ==> s[k] < 128 as char
    ensures ByteLength(s) == |s|
  {
    if s != "" {
      AsciiLength(s[1..]);
    }
  }

  lemma ExampleSplits(name: string)
    requires name == "con.tar.gz"
    ensures Stem(name) == "con.tar" && Extension(name) == Some("gz")
  {
    assert name == "con.tar" + "." + "gz";
    SplitsBack("con.tar", "gz");
  }

  lemma ExampleFits(name: string)
    requires Stem(name) == "con.tar" && Extension(name) == Some("gz")
    ensures HasDot(Stem(name)) && ByteLength(Renamed(name)) <= MAX_FILENAME_BYTES
  {
    assert Stem(name)[3] == '.';
    AsciiLength(Renamed(name));
  }

  lemma ExampleIsDevice(name: string)
    requires name == "con.tar.gz"
    ensures IsReserved(name)
  {
    assert name == "con" + ".tar.gz";
    DeviceChunk(name, ".tar.gz");
  }

  lemma ExampleFacts(name: string)
    requires name == "con.tar.gz"
    ensures Tidy(name) && IsReserved(name) && Stem(name) == "con.tar" && Extension(name) == Some("gz")
  {
    ExampleSplits(name);
    ExampleIsDevice(name);
    ExampleIsTidy(name);
  }

  lemma ExampleIsTidy(name: string)
    requires name == "con.tar.gz"
    ensures Tidy(name)
  {
    assert forall k :: 0 <= k < |name| ==> name[k] == '.' || 'a' <= name[k] <= 'z';
  }

  /** The first way: a device name with two extensions. */
  lemma DeviceWithTwoExtensions(name: string)
    requires name == "con.tar.gz"
    ensures IsReserved(CanonicalName(name))
  {
    ExampleFacts(name);
    ExampleFits(name);
    TidyDeviceStays(name);
  }

  lemma TidyDeviceStays(name: string)
    requires Tidy(name) && IsReserved(name) && HasDot(Stem(name)) && ByteLength(Renamed(name)) <= MAX_FILENAME_BYTES
    ensures IsReserved(CanonicalName(name))
  {
    SanitizedStays(name);
    CanonicalReservedExactly(name);
  }

  /** `con`, 252 spaces and an `x`, with an extension of 260 letters. */
  function LongExtension(): (s: string)
    ensures |s| == 517 && s[..3] == "con" && s[255] == 'x' && s[256] == '.'
    ensures forall k :: 3 <= k < 255 ==> s[k] == ' '
    ensures forall k :: 256 < k < 517 ==> s[k] == 'y'
  {
    "con" + seq(252, _ => ' ') + "x." + seq(260, _ => 'y')
  }

  lemma LongExtensionIsAscii(name: string)
    requires name == LongExtension()
    ensures Tidy(name) && (forall k :: 0 <= k < |name| ==> name[k] < 128 as char)
    ensures !HasDot(name[..256]) && !HasDot(name[..255]) && !HasDot(name[257..])
  {
    assert forall k :: 0 <= k < 3 ==> name[k] == name[..3][k];
  }

  lemma LongExtensionCut(name: string)
    requires name == LongExtension()
    ensures ByteLength(name) > MAX_FILENAME_BYTES && BaseBudget(DottedExtension(name)) == 0
    ensures Truncated(name, MAX_FILENAME_BYTES) == name[..255]
  {
    LongExtensionIsAscii(name);
    AsciiLength(name);
    AsciiLength(name[..255]);
    AsciiLength(name[..256]);
    OnlyTruncation(name, 255, MAX_FILENAME_BYTES);
    assert name == name[..256] + "." + name[257..];
    SplitsBack(name[..256], name[257..]);
    AsciiLength(DottedExtension(name));
  }

  lemma LongExtensionIsNoDevice(name: string)
    requires name == LongExtension()
    ensures !IsReserved(name)
  {
    LongExtensionIsAscii(name);
    LongChunkIsNoDevice(name[..256], name[256..]);
    assert name == name[..256] + name[256..];
  }

  lemma LongExtensionPadded(name: string)
    requires name == LongExtension()
    ensures Padded(name[..255])
  {
    assert Uppercase("con") == "CON";
    assert name[..255][..3] == "con";
    assert PaddedAt(name[..255], 3);
  }

  /** The second way: a name that is no device is cut down to one. */
  lemma CutMakesADevice(name: string)
    requires name == LongExtension()
    ensures !IsReserved(name) && IsReserved(CanonicalName(name))
  {
    LongExtensionIsAscii(name);
    LongExtensionIsNoDevice(name);
    SanitizedStays(name);
    LongExtensionCut(name);
    LongExtensionPadded(name);
    CanonicalReservedExactly(name);
  }
}
