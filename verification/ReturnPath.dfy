/**
 Which path of this app a browser may be sent back to.

 A candidate is a sequence of code points, lone surrogates included, since that is what the program's
 text can hold; an accepted path is plain text. What a browser makes of it is dot-segment removal,
 section 5.2.4 of RFC 3986, after backslashes are read as slashes and `%2e` as a dot.
 */
module ReturnPath {
  import opened Wrappers
  import opened Text
  import B = Base64Url
  import P = PendingLogin

  const MAX_RETURN_PATH_BYTES := 512

  type CodePoint = n: int | 0 <= n <= 0x10FFFF

  predicate IsSurrogate(c: CodePoint) { 0xD800 <= c <= 0xDFFF }

  predicate IsControl(c: CodePoint) { c <= 0x1F || c == 0x7F }

  predicate IsSlash(c: CodePoint) { c == 0x2F || c == 0x5C }

  function CodePoints(s: string): seq<CodePoint> {
    if s == "" then [] else [s[0] as int] + CodePoints(s[1..])
  }

  // ----- percent-encoding -----

  function Utf8(c: CodePoint): (bytes: seq<B.Byte>)
    requires !IsSurrogate(c)
  {
    if c < 0x80 then [c as B.Byte]
    else if c < 0x800 then [(0xC0 + c / 64) as B.Byte, (0x80 + c % 64) as B.Byte]
    else if c < 0x10000 then
      [(0xE0 + c / 4096) as B.Byte, (0x80 + c / 64 % 64) as B.Byte, (0x80 + c % 64) as B.Byte]
    else
      [(0xF0 + c / 262144) as B.Byte, (0x80 + c / 4096 % 64) as B.Byte, (0x80 + c / 64 % 64) as B.Byte,
       (0x80 + c % 64) as B.Byte]
  }

  function HexDigit(n: int): char
    requires 0 <= n < 16
  {
    if n < 10 then '0' + n as char else 'A' + (n - 10) as char
  }

  /** The printable ASCII characters stay, every other byte is escaped. */
  function QuotedByte(b: B.Byte): string {
    if 0x21 <= b as int <= 0x7E then [b as int as char]
    else ['%', HexDigit(b as int / 16), HexDigit(b as int % 16)]
  }

  function Quoted(bytes: seq<B.Byte>): string {
    if bytes == [] then "" else QuotedByte(bytes[0]) + Quoted(bytes[1..])
  }

  /** The path in ASCII, or `None` where a lone surrogate cannot be encoded. */
  function Ascii(path: seq<CodePoint>): Option<string> {
    if path == [] then Some("")
    else if IsSurrogate(path[0]) then None
    else
      match Ascii(path[1..])
      case None => None
      case Some(rest) => Some(Quoted(Utf8(path[0])) + rest)
  }

  // ----- the judge -----

  function Printed(path: seq<CodePoint>): seq<CodePoint> {
    if path == [] then []
    else (if path[0] in {0x09, 0x0A, 0x0D} then [] else [path[0]]) + Printed(path[1..])
  }

  /** Whether a browser, which drops tab, line feed and carriage return, reads two leading slashes. */
  predicate ReadsAsAnotherHost(path: seq<CodePoint>) {
    var printed := Printed(path);
    |printed| >= 2 && IsSlash(printed[0]) && IsSlash(printed[1])
  }

  predicate IsPlainRootChar(c: char) {
    'A' <= c <= 'Z' || 'a' <= c <= 'z' || '0' <= c <= '9' || c in "-._~/"
  }

  predicate IsPlainRoot(root: string) {
    forall i :: 0 <= i < |root| ==> IsPlainRootChar(root[i])
  }

  predicate IsUnder(root: string, path: string) {
    root == "" || path == root || root + "/" <= path || root + "?" <= path
  }

  predicate IsDot(s: string) {
    s == "." || s == "%2e" || s == "%2E"
  }

  /** One or two dots, each spelled plainly or escaped in either case. */
  predicate IsDotSegment(s: string) {
    IsDot(s) || (|s| >= 1 && IsDot(s[..1]) && IsDot(s[1..])) || (|s| >= 3 && IsDot(s[..3]) && IsDot(s[3..]))
  }

  function WithSlashes(path: string): string {
    if path == "" then "" else [if path[0] == '\\' then '/' else path[0]] + WithSlashes(path[1..])
  }

  predicate HasDotSegment(path: string) {
    exists segment :: segment in Split(WithSlashes(path), '/') && IsDotSegment(segment)
  }

  /** The address up to its first question mark. */
  function PathPart(address: string): string {
    Split(address, '?')[0]
  }

  /** `same_app_path`: the candidate as an ASCII path of the app at `root`, or `None`. */
  function SameAppPath(root: string, candidate: Option<seq<CodePoint>>): Option<string> {
    match candidate
    case None => None
    case Some(path) =>
      if path == [] || path[0] != 0x2F || (exists i :: 0 <= i < |path| && IsControl(path[i])) then None
      else if 0x23 in path || ReadsAsAnotherHost(path) then None
      else
        match Ascii(path)
        case None => None
        case Some(encoded) =>
          if !IsPlainRoot(root) || !IsUnder(root, encoded) then None
          else if HasDotSegment(PathPart(encoded)) then None
          else if |encoded| <= MAX_RETURN_PATH_BYTES then Some(encoded) else None
  }

  // ----- shape and idempotence -----

  predicate IsPrintable(s: string) {
    forall i :: 0 <= i < |s| ==> '!' <= s[i] <= '~'
  }

  lemma {:induction false} QuotedIsPrintable(bytes: seq<B.Byte>)
    ensures IsPrintable(Quoted(bytes))
  {
    if bytes != [] {
      QuotedIsPrintable(bytes[1..]);
    }
  }

  lemma {:induction false} AsciiIsPrintable(path: seq<CodePoint>)
    requires Ascii(path).Some?
    ensures IsPrintable(Ascii(path).value)
  {
    if path != [] {
      QuotedIsPrintable(Utf8(path[0]));
      AsciiIsPrintable(path[1..]);
    }
  }

  predicate IsPrintableCode(c: CodePoint) { 0x21 <= c <= 0x7E }

  lemma QuotedPrintable(c: CodePoint)
    requires IsPrintableCode(c)
    ensures Quoted(Utf8(c)) == [c as char]
  {
    assert Utf8(c)[1..] == [];
    assert Quoted(Utf8(c)) == QuotedByte(Utf8(c)[0]) + Quoted([]);
  }

  /** Printable text is its own encoding. */
  lemma {:induction false} AsciiOfPrintable(s: string)
    requires IsPrintable(s)
    ensures Ascii(CodePoints(s)) == Some(s)
  {
    if s != "" {
      AsciiOfPrintable(s[1..]);
      QuotedPrintable(s[0] as int);
      assert CodePoints(s)[1..] == CodePoints(s[1..]);
      assert [s[0]] + s[1..] == s;
    }
  }

  lemma {:induction false} CodePointsAt(s: string)
    ensures |CodePoints(s)| == |s| && forall i :: 0 <= i < |s| ==> CodePoints(s)[i] == s[i] as int
  {
    if s != "" {
      CodePointsAt(s[1..]);
    }
  }

  lemma {:induction false} PrintedOfPrintable(path: seq<CodePoint>)
    requires forall i :: 0 <= i < |path| ==> !IsControl(path[i])
    ensures Printed(path) == path
  {
    if path != [] {
      PrintedOfPrintable(path[1..]);
    }
  }

  /** No character other than itself contributes a printable character below the escapes. */
  lemma {:induction false} AsciiLacksHash(path: seq<CodePoint>)
    requires Ascii(path).Some? && 0x23 !in path
    ensures '#' !in Ascii(path).value
  {
    if path != [] {
      AsciiLacksHash(path[1..]);
      QuotedLacksHash(Utf8(path[0]));
    }
  }

  lemma {:induction false} QuotedLacksHash(bytes: seq<B.Byte>)
    requires forall i :: 0 <= i < |bytes| ==> bytes[i] as int != 0x23
    ensures '#' !in Quoted(bytes)
  {
    if bytes != [] {
      QuotedLacksHash(bytes[1..]);
    }
  }

  /** The first two characters of the encoding are slashes only where the path's are. */
  lemma EncodedStart(path: seq<CodePoint>)
    requires Ascii(path).Some? && path != [] && path[0] == 0x2F
    ensures var encoded := Ascii(path).value;
            && encoded != "" && encoded[0] == '/'
            && (|encoded| >= 2 && encoded[1] in "/\\" ==> |path| >= 2 && IsSlash(path[1]))
  {
    QuotedPrintable(0x2F);
    if |path| >= 2 {
      EscapedStartsWithPercent(path[1]);
    }
  }

  /** What every accepted path is. */
  predicate IsWellFormed(root: string, accepted: string) {
    && 1 <= |accepted| <= MAX_RETURN_PATH_BYTES
    && IsPrintable(accepted) && '#' !in accepted
    && accepted[0] == '/' && (|accepted| >= 2 ==> accepted[1] !in "/\\")
    && IsPlainRoot(root) && IsUnder(root, accepted)
    && !HasDotSegment(PathPart(accepted))
  }

  lemma AcceptedIsWellFormed(root: string, candidate: Option<seq<CodePoint>>)
    requires SameAppPath(root, candidate).Some?
    ensures IsWellFormed(root, SameAppPath(root, candidate).value)
  {
    var path := candidate.value;
    AsciiIsPrintable(path);
    AsciiLacksHash(path);
    EncodedStart(path);
    PrintedOfPrintable(path);
  }

  lemma WellFormedIsAccepted(root: string, path: string)
    requires IsWellFormed(root, path)
    ensures SameAppPath(root, Some(CodePoints(path))) == Some(path)
  {
    CodePointsAt(path);
    AsciiOfPrintable(path);
    PrintedOfPrintable(CodePoints(path));
  }

  /** A candidate is accepted, as its encoding, exactly when it holds no control character and no hash and its encoding is well formed. */
  lemma AcceptedExactly(root: string, path: seq<CodePoint>)
    ensures SameAppPath(root, Some(path))
         == if IsClean(path) && Ascii(path).Some? && IsWellFormed(root, Ascii(path).value) then Ascii(path) else None
  {
    if SameAppPath(root, Some(path)).Some? {
      AcceptedIsWellFormed(root, Some(path));
    } else if IsClean(path) && Ascii(path).Some? && IsWellFormed(root, Ascii(path).value) {
      FirstCharacters(path);
      PrintedOfPrintable(path);
    }
  }

  predicate IsClean(path: seq<CodePoint>) {
    forall i :: 0 <= i < |path| ==> path[i] > 0x1F && path[i] != 0x7F && path[i] != 0x23
  }

  /** A slash in the encoding's first two places is a slash of the path. */
  lemma FirstCharacters(path: seq<CodePoint>)
    requires Ascii(path).Some? && Ascii(path).value != "" && Ascii(path).value[0] == '/'
    ensures path != [] && path[0] == 0x2F
    ensures |path| >= 2 && IsSlash(path[1]) ==> |Ascii(path).value| >= 2 && Ascii(path).value[1] in "/\\"
  {
    EscapedStartsWithPercent(path[0]);
    QuotedPrintable(0x2F);
    if |path| >= 2 && IsSlash(path[1]) {
      QuotedPrintable(path[1]);
    }
  }

  lemma EscapedStartsWithPercent(c: CodePoint)
    requires !IsSurrogate(c)
    ensures Quoted(Utf8(c)) != ""
    ensures Quoted(Utf8(c))[0] == if IsPrintableCode(c) then c as char else '%'
  {
    assert Quoted(Utf8(c)) == QuotedByte(Utf8(c)[0]) + Quoted(Utf8(c)[1..]);
  }

  /** The well-formed paths are exactly the accepted ones, and judging one again changes nothing. */
  lemma JudgingIsIdempotent(root: string, candidate: Option<seq<CodePoint>>)
    ensures var judged := SameAppPath(root, candidate);
            judged.Some? ==> SameAppPath(root, Some(CodePoints(judged.value))) == judged
    ensures forall path :: IsWellFormed(root, path) <==> SameAppPath(root, Some(CodePoints(path))) == Some(path)
  {
    if SameAppPath(root, candidate).Some? {
      AcceptedIsWellFormed(root, candidate);
      WellFormedIsAccepted(root, SameAppPath(root, candidate).value);
    }
    forall path ensures IsWellFormed(root, path) <==> SameAppPath(root, Some(CodePoints(path))) == Some(path) {
      if IsWellFormed(root, path) {
        WellFormedIsAccepted(root, path);
      } else if SameAppPath(root, Some(CodePoints(path))) == Some(path) {
        AcceptedIsWellFormed(root, Some(CodePoints(path)));
      }
    }
  }

  // ----- what a browser resolves an accepted path to -----

  /** Where the next slash after the first character is, or the end. */
  function SegmentEnd(input: string, from: nat): (end: nat)
    requires from <= |input|
    ensures from <= end <= |input|
    decreases |input| - from
  {
    if from == |input| || input[from] == '/' then from else SegmentEnd(input, from + 1)
  }

  /** The output without its last segment and the slash before it. */
  function WithoutLastSegment(output: string): (rest: string)
    ensures |rest| <= |output|
  {
    if output == "" || output[|output| - 1] == '/' then output[..if output == "" then 0 else |output| - 1]
    else WithoutLastSegment(output[..|output| - 1])
  }

  /** The five steps of section 5.2.4 of RFC 3986, in their order. */
  function RemoveDotSegments(input: string, output: string): string
    decreases |input|
  {
    if input == "" then output
    else if "../" <= input then RemoveDotSegments(input[3..], output)
    else if "./" <= input then RemoveDotSegments(input[2..], output)
    else if "/./" <= input then RemoveDotSegments(input[2..], output)
    else if input == "/." then RemoveDotSegments("/", output)
    else if "/../" <= input then RemoveDotSegments(input[3..], WithoutLastSegment(output))
    else if input == "/.." then RemoveDotSegments("/", WithoutLastSegment(output))
    else if input == "." || input == ".." then output
    else
      var end := SegmentEnd(input, 1);
      RemoveDotSegments(input[end..], output + input[..end])
  }

  /** Each segment behind a slash. */
  function Spelled(segments: seq<string>): string {
    if segments == [] then "" else "/" + segments[0] + Spelled(segments[1..])
  }

  predicate AreSegments(segments: seq<string>) {
    forall i :: 0 <= i < |segments| ==> '/' !in segments[i]
  }

  predicate IsDots(segment: string) { segment == "." || segment == ".." }

  lemma {:induction false} SegmentEndExactly(segment: string, rest: string, from: nat)
    requires '/' !in segment && (rest == "" || rest[0] == '/') && 1 <= from <= 1 + |segment|
    ensures SegmentEnd("/" + segment + rest, from) == 1 + |segment|
    decreases |segment| - from
  {
    if from <= |segment| {
      assert ("/" + segment + rest)[from] == segment[from - 1];
      SegmentEndExactly(segment, rest, from + 1);
    }
  }

  /** A segment that is no dot segment moves to the output whole. */
  lemma PlainSegmentMoves(segment: string, rest: string, output: string)
    requires '/' !in segment && !IsDots(segment) && (rest == "" || rest[0] == '/')
    ensures RemoveDotSegments("/" + segment + rest, output) == RemoveDotSegments(rest, output + "/" + segment)
  {
    var input := "/" + segment + rest;
    SegmentEndExactly(segment, rest, 1);
    assert input[1 + |segment|..] == rest && input[..1 + |segment|] == "/" + segment;
    assert output + ("/" + segment) == output + "/" + segment;
    DotSegmentStart(segment, rest);
    SegmentMoves(input, output);
  }

  /** Only a dot segment makes a path start as one. */
  lemma DotSegmentStart(segment: string, rest: string)
    requires '/' !in segment && (rest == "" || rest[0] == '/')
    ensures var input := "/" + segment + rest;
            && !StartsRelative(input)
            && ("/./" <= input || input == "/." ==> segment == ".")
            && ("/../" <= input || input == "/.." ==> segment == "..")
  {
    var input := "/" + segment + rest;
    assert input[0] == '/';
    assert forall i :: 0 <= i < |segment| ==> input[i + 1] == segment[i] && segment[i] != '/';
    assert rest != "" ==> input[|segment| + 1] == '/';
    if |segment| >= 2 {
      assert input[2] != '/';
    }
    if |segment| >= 3 {
      assert input[3] != '/';
    }
    if ("/./" <= input || input == "/.") && |segment| == 1 {
      assert segment[0] == input[1];
      assert segment == ".";
    }
    if ("/../" <= input || input == "/..") && |segment| == 2 {
      assert segment[0] == input[1] && segment[1] == input[2];
      assert segment == "..";
    }
  }

  /** What only a path without a leading slash can start with. */
  predicate StartsRelative(input: string) {
    "../" <= input || "./" <= input || input == "." || input == ".."
  }

  /** The fifth step: the first segment moves to the output. */
  lemma SegmentMoves(input: string, output: string)
    requires input != "" && !StartsRelative(input)
    requires !("/./" <= input) && input != "/." && !("/../" <= input) && input != "/.."
    ensures var end := SegmentEnd(input, 1);
            RemoveDotSegments(input, output) == RemoveDotSegments(input[end..], output + input[..end])
  {
  }

  lemma SingleSlash(output: string)
    ensures RemoveDotSegments("/", output) == output + "/"
  {
    PlainSegmentMoves("", "", output);
    assert "/" + "" + "" == "/" && output + "/" + "" == output + "/";
  }

  /** A dot segment shortens what is left without lengthening the output. */
  lemma DotSegmentShrinks(segment: string, rest: string, output: string)
    requires IsDots(segment) && (rest == "" || rest[0] == '/')
    ensures rest == "" ==> |RemoveDotSegments("/" + segment + rest, output)| < |output| + 1 + |segment|
    ensures rest == "" || RemoveDotSegments("/" + segment + rest, output)
                       == RemoveDotSegments(rest, if segment == "." then output else WithoutLastSegment(output))
  {
    var input := "/" + segment + rest;
    DotSegmentStart(segment, rest);
    if segment == "." {
      if rest == "" {
        SingleSlash(output);
        assert input == "/.";
      } else {
        assert input[..3] == "/./" && input[2..] == rest;
      }
    } else if rest == "" {
      SingleSlash(WithoutLastSegment(output));
      assert input == "/..";
    } else {
      assert input[2] == '.';
      assert input[..4] == "/../" && input[3..] == rest;
    }
  }

  /** Removal keeps exactly the paths without a dot segment, and shortens every other one. */
  lemma {:induction false} RemovalExactly(segments: seq<string>, output: string)
    requires AreSegments(segments)
    ensures AreDotFree(segments) ==> RemoveDotSegments(Spelled(segments), output) == output + Spelled(segments)
    ensures |RemoveDotSegments(Spelled(segments), output)| <= |output| + |Spelled(segments)|
    ensures !AreDotFree(segments) ==>
              |RemoveDotSegments(Spelled(segments), output)| < |output| + |Spelled(segments)|
  {
    if segments == [] {
      assert output + "" == output;
    } else {
      var first, others := segments[0], segments[1..];
      assert segments == [first] + others;
      if IsDots(first) {
        RemovalExactly(others, output);
        RemovalExactly(others, WithoutLastSegment(output));
        DotSegmentShrinks(first, Spelled(others), output);
        assert !AreDotFree(segments);
      } else {
        RemovalExactly(others, output + "/" + first);
        PlainSegmentRemoval(first, others, output);
        assert AreDotFree(segments) <==> AreDotFree(others);
      }
    }
  }

  predicate AreDotFree(segments: seq<string>) {
    forall i :: 0 <= i < |segments| ==> !IsDots(segments[i])
  }

  lemma PlainSegmentRemoval(first: string, others: seq<string>, output: string)
    requires '/' !in first && !IsDots(first)
    ensures RemoveDotSegments(Spelled([first] + others), output)
         == RemoveDotSegments(Spelled(others), output + "/" + first)
    ensures output + Spelled([first] + others) == output + "/" + first + Spelled(others)
  {
    assert ([first] + others)[1..] == others;
    PlainSegmentMoves(first, Spelled(others), output);
  }

  lemma {:induction false} SpelledIsJoined(segments: seq<string>)
    requires segments != []
    ensures Spelled(segments) == "/" + Join(segments, '/')
  {
    if |segments| > 1 {
      SpelledIsJoined(segments[1..]);
    } else {
      assert Spelled(segments[1..]) == "";
    }
  }

  /** A path from its slash on is its segments, each behind a slash. */
  lemma PathIsSpelled(path: string)
    requires path != "" && path[0] == '/'
    ensures var segments := Split(path[1..], '/');
            && Split(path, '/') == [""] + segments && AreSegments(segments) && Spelled(segments) == path
  {
    PartsLackTheSeparator(path[1..], '/');
    JoinUndoesSplit(path[1..], '/');
    SpelledIsJoined(Split(path[1..], '/'));
    assert "/" + path[1..] == path;
  }

  /** `%2e`, in either case. */
  predicate ReadsAsDot(t: string) {
    |t| == 3 && t[0] == '%' && t[1] == '2' && (t[2] == 'e' || t[2] == 'E')
  }

  lemma EscapedDotsAgree(s: string)
    ensures |s| >= 3 ==> (IsDot(s[..3]) <==> ReadsAsDot(s[..3]))
  {
  }

  /** Reading `%2e` and `%2E` as a dot. */
  function WithDots(s: string): string {
    if s == "" then ""
    else if |s| >= 3 && ReadsAsDot(s[..3]) then "." + WithDots(s[3..])
    else [s[0]] + WithDots(s[1..])
  }

  function AsBrowserReads(path: string): string {
    WithDots(WithSlashes(path))
  }

  function WithDotsEach(parts: seq<string>): seq<string> {
    if parts == [] then [] else [WithDots(parts[0])] + WithDotsEach(parts[1..])
  }

  lemma WithDotsEachAt(parts: seq<string>)
    ensures |WithDotsEach(parts)| == |parts|
    ensures forall i :: 0 <= i < |parts| ==> WithDotsEach(parts)[i] == WithDots(parts[i])
  {
  }

  lemma SplitOne(s: string)
    requires s != "" && s[0] != '/'
    ensures Split(s, '/') == [[s[0]] + Split(s[1..], '/')[0]] + Split(s[1..], '/')[1..]
  {
  }

  /** No slash is in an escaped dot, so reading dots and splitting at slashes commute. */
  lemma {:induction false} DotsBySegment(s: string)
    ensures Split(WithDots(s), '/') == WithDotsEach(Split(s, '/'))
    decreases |s|
  {
    if s == "" {
      assert WithDotsEach([""]) == [""];
    } else if |s| >= 3 && ReadsAsDot(s[..3]) {
      DotsBySegment(s[3..]);
      assert s[0] == s[..3][0] && s[1] == s[..3][1] && s[2] == s[..3][2];
      var rest := Split(s[3..], '/');
      SplitOne(s);
      SplitOne(s[1..]);
      SplitOne(s[2..]);
      assert s[1..][1..] == s[2..] && s[2..][1..] == s[3..];
      var part := [s[0]] + ([s[1]] + ([s[2]] + rest[0]));
      assert Split(s, '/') == [part] + rest[1..];
      assert part[..3] == s[..3] && part[3..] == rest[0];
      assert ("." + WithDots(s[3..]))[1..] == WithDots(s[3..]);
      assert WithDotsEach(rest) == [WithDots(rest[0])] + WithDotsEach(rest[1..]);
    } else {
      DotsBySegment(s[1..]);
      DotsBySegmentStep(s);
    }
  }

  lemma DotsBySegmentStep(s: string)
    requires s != "" && !(|s| >= 3 && ReadsAsDot(s[..3]))
    requires Split(WithDots(s[1..]), '/') == WithDotsEach(Split(s[1..], '/'))
    ensures Split(WithDots(s), '/') == WithDotsEach(Split(s, '/'))
  {
    var read, parts := WithDots(s[1..]), Split(s[1..], '/');
    assert WithDots(s) == [s[0]] + read;
    if s[0] == '/' {
      SeparatedPart(read, parts);
    } else {
      FirstPartReads(s);
      PrependedPart(s[0], read, parts);
      SplitOne(s);
    }
  }

  lemma SeparatedPart(read: string, parts: seq<string>)
    requires Split(read, '/') == WithDotsEach(parts)
    ensures Split(['/'] + read, '/') == WithDotsEach([""] + parts)
  {
    assert (['/'] + read)[1..] == read;
    WithDotsOfFirst("", parts);
  }

  /** Prepending one unread character to the first part, before or after the dots are read. */
  lemma PrependedPart(first: char, read: string, parts: seq<string>)
    requires first != '/' && |parts| > 0 && Split(read, '/') == WithDotsEach(parts)
    requires WithDots([first] + parts[0]) == [first] + WithDots(parts[0])
    ensures Split([first] + read, '/') == WithDotsEach([[first] + parts[0]] + parts[1..])
  {
    assert ([first] + read)[1..] == read;
    assert parts == [parts[0]] + parts[1..];
    WithDotsOfFirst(parts[0], parts[1..]);
    WithDotsOfFirst([first] + parts[0], parts[1..]);
  }

  lemma FirstPartReads(s: string)
    requires s != "" && !(|s| >= 3 && ReadsAsDot(s[..3]))
    ensures WithDots([s[0]] + Split(s[1..], '/')[0]) == [s[0]] + WithDots(Split(s[1..], '/')[0])
  {
    var part := [s[0]] + Split(s[1..], '/')[0];
    PartIsPrefix(s[1..]);
    assert |part| >= 3 ==> part[..3] == s[..3];
    assert part[1..] == Split(s[1..], '/')[0];
  }

  lemma WithDotsOfFirst(first: string, others: seq<string>)
    ensures WithDotsEach([first] + others) == [WithDots(first)] + WithDotsEach(others)
  {
    assert ([first] + others)[1..] == others;
  }

  lemma {:induction false} PartIsPrefix(s: string)
    ensures Split(s, '/')[0] <= s
  {
    if s != "" {
      PartIsPrefix(s[1..]);
    }
  }

  /** The refused segments are exactly those a browser reads as one or two dots. */
  lemma DotSegmentExactly(segment: string)
    ensures IsDotSegment(segment) <==> IsDots(WithDots(segment))
  {
    DotExactly(segment);
    EscapedDotsAgree(segment);
    if |segment| >= 3 && IsDot(segment[..3]) {
      DotExactly(segment[3..]);
      assert segment == segment[..3] + segment[3..];
      assert segment[..1][0] == segment[..3][0];
      assert WithDots(segment) == "." + WithDots(segment[3..]);
      TwoDotsExactly('.', WithDots(segment[3..]));
    } else if segment != "" {
      DotExactly(segment[1..]);
      assert segment == segment[..1] + segment[1..];
      assert WithDots(segment) == [segment[0]] + WithDots(segment[1..]);
      TwoDotsExactly(segment[0], WithDots(segment[1..]));
      assert IsDot(segment[..1]) <==> segment[0] == '.';
    }
  }

  lemma TwoDotsExactly(first: char, rest: string)
    ensures IsDots([first] + rest) <==> first == '.' && (rest == "" || rest == ".")
  {
    if [first] + rest == ".." {
      assert rest == ([first] + rest)[1..];
    }
    if [first] + rest == "." {
      assert rest == ([first] + rest)[1..];
    }
    assert ([first] + rest)[0] == first;
  }

  lemma DotExactly(s: string)
    ensures IsDot(s) <==> WithDots(s) == "."
    ensures WithDots(s) == "" <==> s == ""
  {
    EscapedDotsAgree(s);
    if |s| >= 3 && ReadsAsDot(s[..3]) {
      assert s == s[..3] + s[3..];
      NonEmptyStays(s[3..]);
    } else if s != "" {
      NonEmptyStays(s[1..]);
      assert s == [s[0]] + s[1..];
    }
  }

  lemma NonEmptyStays(s: string)
    ensures WithDots(s) == "" <==> s == ""
  {
  }

  lemma {:induction false} WithSlashesAt(path: string)
    ensures |WithSlashes(path)| == |path|
    ensures forall i :: 0 <= i < |path| ==> WithSlashes(path)[i] == (if path[i] == '\\' then '/' else path[i])
  {
    if path != "" {
      WithSlashesAt(path[1..]);
    }
  }

  /**
   A path is free of dot segments exactly when a browser's own resolution leaves it as it reads it:
   backslashes as slashes, escaped dots as dots.
   */
  lemma DotFreeExactly(path: string)
    requires path != "" && path[0] == '/'
    ensures !HasDotSegment(path) <==> RemoveDotSegments(AsBrowserReads(path), "") == AsBrowserReads(path)
  {
    var slashed := WithSlashes(path);
    WithSlashesAt(path);
    var read := WithDots(slashed);
    assert slashed[0] == '/' && read[0] == '/' by {
      assert |slashed| >= 3 ==> slashed[..3][0] == '/';
    }
    DotsBySegment(slashed);
    var parts := Split(slashed, '/');
    WithDotsEachAt(parts);
    PathIsSpelled(read);
    var segments := Split(read[1..], '/');
    RemovalExactly(segments, "");
    assert Split(read, '/') == [""] + segments;
    assert "" + read == read;
    forall i | 0 <= i < |segments|
      ensures IsDots(segments[i]) <==> IsDotSegment(parts[i + 1])
    {
      assert segments[i] == ([""] + segments)[i + 1];
      DotSegmentExactly(parts[i + 1]);
    }
    assert parts[0] == "";
    if HasDotSegment(path) {
      var segment :| segment in parts && IsDotSegment(segment);
      var i :| 0 <= i < |parts| && parts[i] == segment;
      assert IsDots(segments[i - 1]);
    } else {
      forall i | 0 <= i < |segments| ensures !IsDots(segments[i]) {
        assert parts[i + 1] in parts;
      }
    }
  }

  // ----- the whole promise -----

  lemma {:induction false} FirstPartAcross(a: string, b: string, separator: char)
    requires separator !in a
    ensures Split(a + b, separator)[0] == a + Split(b, separator)[0]
  {
    if a == "" {
      assert a + b == b;
    } else {
      FirstPartAcross(a[1..], b, separator);
      assert (a + b)[1..] == a[1..] + b;
    }
  }

  lemma {:induction false} PlainStaysUnderSlashes(root: string, rest: string)
    requires '\\' !in root
    ensures WithSlashes(root + rest) == root + WithSlashes(rest)
  {
    if root == "" {
      assert root + rest == rest;
    } else {
      PlainStaysUnderSlashes(root[1..], rest);
      assert (root + rest)[1..] == root[1..] + rest;
    }
  }

  lemma {:induction false} PlainStaysUnderDots(root: string, rest: string)
    requires '%' !in root
    ensures WithDots(root + rest) == root + WithDots(rest)
  {
    if root == "" {
      assert root + rest == rest;
    } else {
      PlainStaysUnderDots(root[1..], rest);
      assert (root + rest)[1..] == root[1..] + rest;
      assert (root + rest)[0] == root[0];
      assert |root + rest| >= 3 ==> (root + rest)[..3][0] == root[0];
    }
  }

  predicate IsAtOrBelow(root: string, path: string) {
    root == "" || path == root || root + "/" <= path
  }

  lemma PathPartIsAtOrBelow(root: string, address: string)
    requires IsPlainRoot(root) && IsUnder(root, address)
    ensures IsAtOrBelow(root, PathPart(address))
  {
    assert '?' !in root by {
      assert forall i :: 0 <= i < |root| ==> IsPlainRootChar(root[i]) && root[i] != '?';
    }
    if root == "" {
    } else if root + "/" <= address {
      FirstPartAcross(root + "/", address[|root| + 1..], '?');
      assert address == root + "/" + address[|root| + 1..];
    } else {
      FirstPartAcross(root, address[|root|..], '?');
      assert address == root + address[|root|..];
    }
  }

  lemma ReadingStaysAtOrBelow(root: string, path: string)
    requires IsPlainRoot(root) && IsAtOrBelow(root, path)
    ensures IsAtOrBelow(root, AsBrowserReads(path))
  {
    assert forall i :: 0 <= i < |root| ==> IsPlainRootChar(root[i]) && root[i] != '\\' && root[i] != '%';
    if root == "" {
    } else if path == root {
      PlainStaysUnderSlashes(root, "");
      PlainStaysUnderDots(root, "");
      assert root + "" == root;
    } else {
      var rest := path[|root| + 1..];
      assert path == (root + "/") + rest;
      PlainStaysUnderSlashes(root + "/", rest);
      PlainStaysUnderDots(root + "/", WithSlashes(rest));
    }
  }

  /**
   Whatever was asked for, an accepted path is 1 to 512 printable ASCII characters without a hash,
   and the path a browser resolves it to is the path it reads: it begins with one slash, not two,
   and lies at or below the app's root.
   */
  lemma AcceptedStaysInTheApp(root: string, candidate: Option<seq<CodePoint>>)
    requires SameAppPath(root, candidate).Some?
    ensures var accepted := SameAppPath(root, candidate).value;
            var read := AsBrowserReads(PathPart(accepted));
            && 1 <= |accepted| <= MAX_RETURN_PATH_BYTES && IsPrintable(accepted) && '#' !in accepted
            && RemoveDotSegments(read, "") == read
            && read != "" && read[0] == '/' && (|read| >= 2 ==> read[1] != '/')
            && IsAtOrBelow(root, read)
  {
    AcceptedIsWellFormed(root, candidate);
    var accepted := SameAppPath(root, candidate).value;
    var path := PathPart(accepted);
    PathStartsLikeItsAddress(accepted);
    DotFreeExactly(path);
    PathPartIsAtOrBelow(root, accepted);
    ReadingStaysAtOrBelow(root, path);
    ReadingStarts(path);
  }

  lemma {:induction false} PathStartsLikeItsAddress(address: string)
    requires address != "" && address[0] == '/' && (|address| >= 2 ==> address[1] !in "/\\")
    ensures var path := PathPart(address);
            path != "" && path[0] == '/' && (|path| >= 2 ==> path[1] !in "/\\")
  {
    FirstPartAcross("/", address[1..], '?');
    assert "/" + address[1..] == address;
    if |address| >= 2 && address[1] != '?' {
      FirstPartAcross([address[1]], address[2..], '?');
      assert [address[1]] + address[2..] == address[1..];
    }
  }

  lemma ReadingStarts(path: string)
    requires path != "" && path[0] == '/' && (|path| >= 2 ==> path[1] !in "/\\")
    ensures var read := AsBrowserReads(path);
            read != "" && read[0] == '/' && (|read| >= 2 ==> read[1] != '/')
  {
    WithSlashesAt(path);
    var slashed := WithSlashes(path);
    assert |slashed| >= 3 ==> slashed[..3][0] == '/';
    assert AsBrowserReads(path) == ['/'] + WithDots(slashed[1..]);
    if |slashed| >= 2 {
      assert slashed[1..][0] == slashed[1] != '/';
      assert WithDots(slashed[1..])[0] != '/';
    }
  }

  /** What stands before the first question mark. */
  lemma PathPartExactly(address: string, path: string)
    ensures path == PathPart(address) <==> '?' !in path && (address == path || path + "?" <= address)
  {
    PartsLackTheSeparator(address, '?');
    FirstPartIsFollowed(address);
    if '?' !in path && address == path {
      SplitOfOnePart(address, '?');
    } else if '?' !in path && path + "?" <= address {
      FirstPartAcross(path, address[|path|..], '?');
      assert address == path + address[|path|..];
    }
  }

  lemma {:induction false} FirstPartIsFollowed(address: string)
    ensures PathPart(address) == address || PathPart(address) + "?" <= address
  {
    if address != "" && address[0] != '?' {
      FirstPartIsFollowed(address[1..]);
      assert PathPart(address) == [address[0]] + PathPart(address[1..]);
      assert address == [address[0]] + address[1..];
    }
  }

  /** An address is under a plain root exactly when its path is the root or lies below it. */
  lemma UnderExactly(root: string, address: string)
    requires IsPlainRoot(root)
    ensures IsUnder(root, address) <==> IsAtOrBelow(root, PathPart(address))
  {
    if IsUnder(root, address) {
      PathPartIsAtOrBelow(root, address);
    }
    FirstPartIsFollowed(address);
  }

  /** Printable text of 1 to 512 characters, without a hash, behind one slash. */
  predicate HasAppShape(text: string) {
    && 1 <= |text| <= 512
    && (forall i :: 0 <= i < |text| ==> '!' <= text[i] <= '~' && text[i] != '#')
    && text[0] == '/' && (|text| >= 2 ==> text[1] != '/' && text[1] != '\\')
  }

  lemma ShapeExactly(root: string, text: string)
    ensures IsWellFormed(root, text) <==>
            HasAppShape(text) && IsPlainRoot(root) && IsUnder(root, text) && !HasDotSegment(PathPart(text))
  {
  }

  lemma ShapedPathIsDotFreeExactly(text: string)
    requires HasAppShape(text)
    ensures !HasDotSegment(PathPart(text)) <==>
            RemoveDotSegments(AsBrowserReads(PathPart(text)), "") == AsBrowserReads(PathPart(text))
  {
    PathStartsLikeItsAddress(text);
    DotFreeExactly(PathPart(text));
  }

  /**
   What is accepted, told without the program's own tests: printable text of 1 to 512 characters, no
   hash, behind one slash, whose path, up to the question mark, is the app's plain root or lies below it
   and is what a browser resolves it to.
   */
  lemma AcceptedTextsExactly(root: string, text: string)
    ensures SameAppPath(root, Some(CodePoints(text))) == Some(text) <==>
            && HasAppShape(text)
            && IsPlainRoot(root) && IsAtOrBelow(root, PathPart(text))
            && RemoveDotSegments(AsBrowserReads(PathPart(text)), "") == AsBrowserReads(PathPart(text))
  {
    JudgingIsIdempotent(root, None);
    ShapeExactly(root, text);
    if IsPlainRoot(root) {
      UnderExactly(root, text);
    }
    if HasAppShape(text) {
      ShapedPathIsDotFreeExactly(text);
    }
  }

  // ----- through the cookie and back -----

  function BytesOf(path: string): seq<B.Byte>
    requires IsPrintable(path)
  {
    seq(|path|, i requires 0 <= i < |path| => path[i] as int as B.Byte)
  }

  function TextOf(bytes: seq<B.Byte>): seq<CodePoint> {
    seq(|bytes|, i requires 0 <= i < |bytes| => bytes[i] as int as CodePoint)
  }

  /**
   The path accepted at the start of a login always fits the pending-login cookie, comes back from
   it, and is accepted again unchanged.
   */
  lemma AcceptedPathSurvivesTheLogin(
      root: string, candidate: Option<seq<CodePoint>>, mac: P.Mac, login: P.PendingLogin)
    requires SameAppPath(root, candidate).Some? && P.IsMac(mac)
    requires P.IsMintable(login.(returnTo := None))
    requires IsPrintable(SameAppPath(root, candidate).value)
    requires login.returnTo == Some(BytesOf(SameAppPath(root, candidate).value))
    ensures P.Sign(mac, login).Some?
    ensures P.Verify(mac, P.Sign(mac, login).value) == P.Verified(login)
    ensures SameAppPath(root, Some(TextOf(login.returnTo.value))) == SameAppPath(root, candidate)
  {
    AcceptedIsWellFormed(root, candidate);
    var accepted := SameAppPath(root, candidate).value;
    P.SigningSucceedsExactly(mac, login);
    assert login.returnTo != Some([]);
    P.VerifyUndoesSign(mac, login);
    CodePointsAt(accepted);
    assert TextOf(BytesOf(accepted)) == CodePoints(accepted);
    JudgingIsIdempotent(root, candidate);
  }

  // ----- the encoding itself -----

  function HexValue(c: char): int {
    if '0' <= c <= '9' then c as int - '0' as int else c as int - 'A' as int + 10
  }

  /** Percent-decoding, section 2.1 of RFC 3986, of upper-case escapes. */
  function Unquoted(s: string): seq<int> {
    if s == "" then []
    else if s[0] == '%' && |s| >= 3 then [HexValue(s[1]) * 16 + HexValue(s[2])] + Unquoted(s[3..])
    else [s[0] as int] + Unquoted(s[1..])
  }

  /** The code points that well-formed UTF-8 spells, section 3 of RFC 3629. */
  function FromUtf8(bytes: seq<int>): seq<int> {
    if bytes == [] then []
    else
      var announced := if bytes[0] < 0xC0 then 1 else if bytes[0] < 0xE0 then 2 else if bytes[0] < 0xF0 then 3 else 4;
      var taken := if announced <= |bytes| then announced else |bytes|;
      [CodeOf(bytes[..taken])] + FromUtf8(bytes[taken..])
  }

  lemma {:induction false} UnquotedAcross(bytes: seq<B.Byte>, rest: string)
    requires forall i :: 0 <= i < |bytes| ==> bytes[i] as int != 0x25
    ensures Unquoted(Quoted(bytes) + rest) == bytes + Unquoted(rest)
  {
    if bytes == [] {
      assert "" + rest == rest;
    } else {
      UnquotedAcross(bytes[1..], rest);
      UnquotedByte(bytes[0], Quoted(bytes[1..]) + rest);
      QuotedFirst(bytes, rest);
      FirstAndRest(bytes, Unquoted(rest));
    }
  }

  lemma QuotedFirst(bytes: seq<B.Byte>, rest: string)
    requires bytes != []
    ensures Quoted(bytes) + rest == QuotedByte(bytes[0]) + (Quoted(bytes[1..]) + rest)
  {
  }

  lemma FirstAndRest(bytes: seq<B.Byte>, rest: seq<int>)
    requires bytes != []
    ensures [bytes[0] as int] + (bytes[1..] + rest) == bytes + rest
  {
  }

  lemma UnquotedByte(b: B.Byte, rest: string)
    requires b as int != 0x25
    ensures Unquoted(QuotedByte(b) + rest) == [b as int] + Unquoted(rest)
  {
    var first := QuotedByte(b);
    assert (first + rest)[|first|..] == rest;
  }

  /** The bits a code point spreads over its bytes add up to it. */
  lemma BitsAddUp(c: CodePoint)
    ensures c / 64 * 64 + c % 64 == c
    ensures c / 4096 * 4096 + c / 64 % 64 * 64 + c % 64 == c
    ensures c / 262144 * 262144 + c / 4096 % 64 * 4096 + c / 64 % 64 * 64 + c % 64 == c
  {
    assert c / 4096 == c / 64 / 64 && c / 262144 == c / 4096 / 64;
  }

  lemma FromUtf8Across(c: CodePoint, rest: seq<int>)
    requires !IsSurrogate(c)
    ensures FromUtf8(Utf8(c) + rest) == [c] + FromUtf8(rest)
  {
    var bytes: seq<int> := Utf8(c);
    BitsAddUp(c);
    FromUtf8Leads(bytes, rest);
  }

  /** One lead byte and as many more as it announces are read as one code point. */
  lemma FromUtf8Leads(bytes: seq<int>, rest: seq<int>)
    requires 1 <= |bytes| <= 4 && bytes[0] >= 0
    requires |bytes| == (if bytes[0] < 0xC0 then 1 else if bytes[0] < 0xE0 then 2 else if bytes[0] < 0xF0 then 3 else 4)
    ensures FromUtf8(bytes + rest) == [CodeOf(bytes)] + FromUtf8(rest)
  {
    assert (bytes + rest)[|bytes|..] == rest && (bytes + rest)[..|bytes|] == bytes;
  }

  function CodeOf(bytes: seq<int>): int
    requires 1 <= |bytes| <= 4
  {
    if |bytes| == 1 then bytes[0]
    else if |bytes| == 2 then (bytes[0] - 0xC0) * 64 + (bytes[1] - 0x80)
    else if |bytes| == 3 then (bytes[0] - 0xE0) * 4096 + (bytes[1] - 0x80) * 64 + (bytes[2] - 0x80)
    else (bytes[0] - 0xF0) * 262144 + (bytes[1] - 0x80) * 4096 + (bytes[2] - 0x80) * 64 + (bytes[3] - 0x80)
  }

  /** Encoding loses nothing: without a percent sign of its own, the path reads back from its escapes. */
  lemma {:induction false} EncodingReadsBack(path: seq<CodePoint>)
    ensures Ascii(path).Some? <==> forall i :: 0 <= i < |path| ==> !IsSurrogate(path[i])
    ensures Ascii(path).Some? && 0x25 !in path ==> FromUtf8(Unquoted(Ascii(path).value)) == path
  {
    if path != [] {
      EncodingReadsBack(path[1..]);
      assert path == [path[0]] + path[1..];
      if Ascii(path).Some? && 0x25 !in path {
        UnquotedAcross(Utf8(path[0]), Ascii(path[1..]).value);
        FromUtf8Across(path[0], Unquoted(Ascii(path[1..]).value));
      }
    }
  }
}
