/** The extraction client (`GeminiService`): the MIME type sent with the
    image, the clean-up of the model's reply, the parse-or-degrade policy and
    the re-wrapping of failures. The remote model, file reading and
    `JSON.parse` are parameters. */
module GeminiService {
  import opened Wrappers
  import opened JsString
  import opened DocumentProcessor

  /** The object `analyzeDocument` resolves to. */
  datatype Draft = Draft(documentType: string, extractedData: Fields, confidence: string)

  /** `p` without its trailing `/` characters. */
  function DropTrailingSlashes(p: string): (r: string)
    ensures |r| <= |p| && r == p[..|r|]
    ensures r == [] || r[|r| - 1] != '/'
    ensures forall i :: |r| <= i < |p| ==> p[i] == '/'
  {
    if p != [] && p[|p| - 1] == '/' then DropTrailingSlashes(p[..|p| - 1]) else p
  }

  /** The part of `p` after its last `/`. */
  function LastSegment(p: string): (r: string)
    ensures |r| <= |p| && r == p[|p| - |r|..]
    ensures '/' !in r
    ensures |r| < |p| ==> p[|p| - |r| - 1] == '/'
  {
    if p == [] || p[|p| - 1] == '/' then []
    else
      var r := LastSegment(p[..|p| - 1]) + [p[|p| - 1]];
      assert r == p[|p| - |r|..];
      r
  }

  /** The index of the last `.` in `s`, if any. */
  function LastDot(s: string): (r: Option<nat>)
    ensures r.Some? ==> r.value < |s| && s[r.value] == '.' && forall i :: r.value < i < |s| ==> s[i] != '.'
    ensures r.None? ==> '.' !in s
  {
    if s == [] then None
    else if s[|s| - 1] == '.' then Some(|s| - 1)
    else
      var r := LastDot(s[..|s| - 1]);
      assert s == s[..|s| - 1] + [s[|s| - 1]];
      r
  }

  /** The extension of one path segment: from its last `.` to the end,
      except that a segment whose last `.` is its first character, and the
      segment "..", have none. */
  function SegmentExtension(base: string): (r: string)
    ensures r != [] ==> r[0] == '.' && '.' !in r[1..]
    ensures r != [] ==> |r| <= |base| && r == base[|base| - |r|..]
    ensures r == [] <==> (base == ".." || forall i :: 0 < i < |base| ==> base[i] != '.')
  {
    match LastDot(base)
    case None => ""
    case Some(d) =>
      if d == 0 || base == ".." then ""
      else
        var r := base[d..];
        assert base[d] == '.';
        assert '.' !in r[1..] by {
          forall i | 0 <= i < |r[1..]| ensures r[1..][i] != '.' {
            assert r[1..][i] == base[d + 1 + i];
          }
        }
        r
  }

  /** The segment `path.extname` looks at: the last one once trailing
      separators are dropped. */
  function ExtnameSegment(p: string): (r: string)
    ensures '/' !in r
  {
    LastSegment(DropTrailingSlashes(p))
  }

  /** Node's POSIX `path.extname`: trailing separators are ignored and the
      extension is that of the last path segment. The extension is empty
      exactly when that segment is ".." or has no dot past its first
      character. */
  function Extname(p: string): (r: string)
    ensures r != [] ==> r[0] == '.' && '/' !in r && '.' !in r[1..]
    ensures |r| <= |ExtnameSegment(p)| && r == ExtnameSegment(p)[|ExtnameSegment(p)| - |r|..]
    ensures r == [] <==>
      (ExtnameSegment(p) == ".." || forall i :: 0 < i < |ExtnameSegment(p)| ==> ExtnameSegment(p)[i] != '.')
  {
    var base := ExtnameSegment(p);
    var r := SegmentExtension(base);
    SuffixHasNoSlash(base, |base| - |r|);
    r
  }

  /** A suffix of a slash-free segment is slash-free. */
  lemma SuffixHasNoSlash(base: string, k: nat)
    requires '/' !in base && k <= |base|
    ensures '/' !in base[k..]
  {
    forall i | 0 <= i < |base| - k ensures base[k..][i] != '/' {
      assert base[k..][i] == base[k + i];
    }
  }

  const MimeTypes: map<string, string> := map[
    ".jpg" := "image/jpeg",
    ".jpeg" := "image/jpeg",
    ".png" := "image/png",
    ".gif" := "image/gif",
    ".bmp" := "image/bmp",
    ".webp" := "image/webp"]

  const DefaultMimeType: string := "image/jpeg"

  /** The five MIME types the client can ever declare. */
  const ImageMimeTypes: set<string> := {"image/jpeg", "image/png", "image/gif", "image/bmp", "image/webp"}

  /** `getMimeType`: the lower-cased extension looked up in the table, with
      JPEG as the fallback. */
  function GetMimeType(filePath: string): (r: string)
    ensures r in ImageMimeTypes
    ensures ToLower(Extname(filePath)) !in MimeTypes ==> r == DefaultMimeType
    ensures ToLower(Extname(filePath)) in MimeTypes ==> r == MimeTypes[ToLower(Extname(filePath))]
  {
    var ext := ToLower(Extname(filePath));
    if ext in MimeTypes then MimeTypes[ext] else DefaultMimeType
  }

  lemma {:induction false} DropTrailingSlashesLower(p: string)
    ensures DropTrailingSlashes(ToLower(p)) == ToLower(DropTrailingSlashes(p))
    decreases |p|
  {
    if p != [] {
      CaseMappingKeepsCharClass(p[|p| - 1]);
      ToLowerSlices(p, |p| - 1);
      if p[|p| - 1] == '/' {
        DropTrailingSlashesLower(p[..|p| - 1]);
      }
    }
  }

  lemma {:induction false} LastSegmentLower(p: string)
    ensures LastSegment(ToLower(p)) == ToLower(LastSegment(p))
    decreases |p|
  {
    if p != [] {
      var n := |p| - 1;
      var lp := ToLower(p);
      CaseMappingKeepsCharClass(p[n]);
      ToLowerSlices(p, n);
      assert |lp| == |p| && lp[n] == LowerChar(p[n]);
      if p[n] != '/' {
        LastSegmentLower(p[..n]);
        LastSegmentStep(p);
        LastSegmentStep(lp);
        ToLowerAppend(LastSegment(p[..n]), [p[n]]);
        assert ToLower([p[n]]) == [lp[n]];
      }
    } else {
      assert ToLower(p) == [];
    }
  }

  /** A last character other than '/' ends the last segment. */
  lemma LastSegmentStep(p: string)
    requires p != [] && p[|p| - 1] != '/'
    ensures LastSegment(p) == LastSegment(p[..|p| - 1]) + [p[|p| - 1]]
  {
  }

  lemma {:induction false} LastDotLower(s: string)
    ensures LastDot(ToLower(s)) == LastDot(s)
    decreases |s|
  {
    if s != [] {
      CaseMappingKeepsCharClass(s[|s| - 1]);
      ToLowerSlices(s, |s| - 1);
      if s[|s| - 1] != '.' {
        LastDotLower(s[..|s| - 1]);
      }
    }
  }

  lemma SegmentExtensionLower(base: string)
    ensures SegmentExtension(ToLower(base)) == ToLower(SegmentExtension(base))
  {
    var lb := ToLower(base);
    LastDotLower(base);
    match LastDot(base)
    case None =>
      assert SegmentExtension(lb) == "";
    case Some(d) =>
      assert (lb == "..") == (base == "..") by {
        if |base| == 2 {
          CaseMappingKeepsCharClass(base[0]);
          CaseMappingKeepsCharClass(base[1]);
          assert lb[0] == LowerChar(base[0]) && lb[1] == LowerChar(base[1]);
        }
      }
      ToLowerSlices(base, d);
  }

  /** Lower-casing a path lower-cases its extension and nothing else about
      it: the separators and dots that decide the extension stay put. */
  lemma ExtnameOfLower(p: string)
    ensures Extname(ToLower(p)) == ToLower(Extname(p))
  {
    var base := LastSegment(DropTrailingSlashes(p));
    DropTrailingSlashesLower(p);
    LastSegmentLower(DropTrailingSlashes(p));
    assert LastSegment(DropTrailingSlashes(ToLower(p))) == ToLower(base);
    SegmentExtensionLower(base);
  }

  /** The MIME type does not depend on letter case anywhere in the path:
      "scan.PNG" and "scan.png" are both PNG. */
  lemma GetMimeTypeIgnoresCase(p: string, q: string)
    requires ToLower(p) == ToLower(q)
    ensures GetMimeType(p) == GetMimeType(q)
  {
    ExtnameOfLower(p);
    ExtnameOfLower(q);
    ToLowerIdempotent(Extname(p));
    ToLowerIdempotent(Extname(q));
  }

  /** The last segment of a path is what follows its last `/`. */
  lemma {:induction false} LastSegmentAfterSlash(dir: string, name: string)
    requires '/' !in name
    ensures LastSegment(dir + "/" + name) == name
    decreases |name|
  {
    var p := dir + "/" + name;
    if name == [] {
      assert p[|p| - 1] == '/';
    } else {
      var n := |name| - 1;
      assert p[..|p| - 1] == dir + "/" + name[..n];
      LastSegmentAfterSlash(dir, name[..n]);
      assert name == name[..n] + [name[n]];
    }
  }

  /** For a path ending in a non-empty segment, the extension is that
      segment's. */
  lemma ExtnameOfLastSegment(dir: string, name: string)
    requires name != [] && '/' !in name
    ensures Extname(dir + "/" + name) == SegmentExtension(name)
  {
    var p := dir + "/" + name;
    assert p[|p| - 1] == name[|name| - 1];
    assert DropTrailingSlashes(p) == p;
    LastSegmentAfterSlash(dir, name);
  }

  /** A segment "stem.ext" with a non-empty stem and no other dot has the
      extension ".ext". */
  lemma SegmentExtensionOfStem(stem: string, ext: string)
    requires stem != [] && '.' !in stem && '.' !in ext
    ensures SegmentExtension(stem + "." + ext) == "." + ext
  {
    var name := stem + "." + ext;
    var d := LastDot(name);
    assert name[|stem|] == '.';
    assert d == Some(|stem|);
    assert name != ".." by {
      if |name| == 2 {
        assert name[0] == stem[0];
      }
    }
    assert name[|stem|..] == "." + ext;
  }

  /** The extension of "dir/stem.ext" when the stem is not empty and
      neither the stem nor the extension holds a separator or a dot. */
  lemma ExtnameOfSimplePath(dir: string, stem: string, ext: string)
    requires stem != [] && '/' !in stem && '.' !in stem
    requires '/' !in ext && '.' !in ext
    ensures Extname(dir + "/" + stem + "." + ext) == "." + ext
  {
    var name := stem + "." + ext;
    assert dir + "/" + stem + "." + ext == dir + "/" + name;
    assert '/' !in name by {
      forall i | 0 <= i < |name| ensures name[i] != '/' {
        if i < |stem| { assert name[i] == stem[i]; }
        else if i > |stem| { assert name[i] == ext[i - |stem| - 1]; }
      }
    }
    ExtnameOfLastSegment(dir, name);
    SegmentExtensionOfStem(stem, ext);
  }

  /** A bare file name with several dots, such as "scan.v2.png", takes the
      extension after its last dot. */
  lemma ExtnameOfBareName(stem: string, ext: string)
    requires stem != [] && '/' !in stem
    requires '/' !in ext && '.' !in ext
    requires stem + "." + ext != ".."
    ensures Extname(stem + "." + ext) == "." + ext
  {
    var name := stem + "." + ext;
    var j := |stem|;
    assert name[j] == '.';
    assert name[j..] == "." + ext;
    forall i | 0 <= i < |name| ensures name[i] != '/' && (i > j ==> name[i] != '.') {
      if i < j { assert name[i] == stem[i]; }
      else if i > j { assert name[i] == ext[i - j - 1]; }
    }
    ExtnameFromLastDot(name, j);
  }

  /** In a slash-free name whose last dot is at `j > 0`, the extension runs
      from `j` to the end. */
  lemma ExtnameFromLastDot(name: string, j: nat)
    requires '/' !in name
    requires 0 < j < |name| && name[j] == '.'
    requires forall i :: j < i < |name| ==> name[i] != '.'
    requires name != ".."
    ensures Extname(name) == name[j..]
  {
    SlashFreeIsOwnSegment(name);
    assert ExtnameSegment(name)[j] == '.';
  }

  /** A name without `/` is its own last segment. */
  lemma {:induction false} SlashFreeIsOwnSegment(name: string)
    requires '/' !in name
    ensures DropTrailingSlashes(name) == name && LastSegment(name) == name
    ensures ExtnameSegment(name) == name
    decreases |name|
  {
    if name != [] {
      assert name[..|name| - 1] + [name[|name| - 1]] == name;
      assert '/' !in name[..|name| - 1];
      SlashFreeIsOwnSegment(name[..|name| - 1]);
    }
  }

  /** "scan.v2.png" is PNG. */
  lemma MultiDotPngExample()
    ensures GetMimeType("scan.v2" + "." + "png") == "image/png"
  {
    MultiDotPngSpelling();
    GetMimeTypeOfBareName("scan.v2", "png", ".png");
  }

  lemma MultiDotPngSpelling()
    ensures "scan.v2" != [] && '/' !in "scan.v2" && "scan.v2" + "." + "png" != ".."
    ensures '/' !in "png" && '.' !in "png" && ToLower("." + "png") == ".png"
  {
  }

  /** The MIME type of a bare "stem.ext" is looked up from the lower-cased
      ".ext". */
  lemma GetMimeTypeOfBareName(stem: string, ext: string, lowered: string)
    requires stem != [] && '/' !in stem
    requires '/' !in ext && '.' !in ext
    requires stem + "." + ext != ".."
    requires ToLower("." + ext) == lowered
    ensures GetMimeType(stem + "." + ext) ==
      if lowered in MimeTypes then MimeTypes[lowered] else DefaultMimeType
  {
    ExtnameOfBareName(stem, ext);
  }

  /** The MIME type of "dir/stem.ext" is looked up from the lower-cased
      ".ext". */
  lemma GetMimeTypeOfSimplePath(dir: string, stem: string, ext: string, lowered: string)
    requires stem != [] && '/' !in stem && '.' !in stem
    requires '/' !in ext && '.' !in ext
    requires ToLower("." + ext) == lowered
    ensures GetMimeType(dir + "/" + stem + "." + ext) ==
      if lowered in MimeTypes then MimeTypes[lowered] else DefaultMimeType
  {
    ExtnameOfSimplePath(dir, stem, ext);
  }

  /** "scan.PNG" is PNG wherever it sits. */
  lemma UpperCasePngExample(dir: string)
    ensures GetMimeType(dir + "/" + "scan" + "." + "PNG") == "image/png"
  {
    UpperCasePngSpelling();
    GetMimeTypeOfSimplePath(dir, "scan", "PNG", ".png");
  }

  lemma UpperCasePngSpelling()
    ensures '/' !in "scan" && '.' !in "scan"
    ensures '/' !in "PNG" && '.' !in "PNG" && ToLower("." + "PNG") == ".png"
  {
  }

  /** A dot-file such as "uploads/.png" has no extension, so it is sent as
      JPEG. */
  lemma DotFileHasNoExtension(dir: string, name: string)
    requires name != [] && '/' !in name && '.' !in name
    ensures Extname(dir + "/" + "." + name) == ""
  {
    var seg := "." + name;
    assert dir + "/" + "." + name == dir + "/" + seg;
    assert '/' !in seg by {
      forall i | 0 <= i < |seg| ensures seg[i] != '/' {
        if i > 0 { assert seg[i] == name[i - 1]; }
      }
    }
    ExtnameOfLastSegment(dir, seg);
    DotSegmentHasNoExtension(name);
  }

  /** A segment whose only dot is its first character has no extension. */
  lemma DotSegmentHasNoExtension(name: string)
    requires '.' !in name
    ensures SegmentExtension("." + name) == ""
  {
    var seg := "." + name;
    assert seg[0] == '.';
    assert forall i :: 0 < i < |seg| ==> seg[i] == name[i - 1];
  }

  lemma DotFileIsJpeg(dir: string, name: string)
    requires name != [] && '/' !in name && '.' !in name
    ensures GetMimeType(dir + "/" + "." + name) == DefaultMimeType
  {
    DotFileHasNoExtension(dir, name);
    NoExtensionIsJpeg(dir + "/" + "." + name);
  }

  /** A path without an extension falls back to JPEG. */
  lemma NoExtensionIsJpeg(filePath: string)
    requires Extname(filePath) == ""
    ensures GetMimeType(filePath) == DefaultMimeType
  {
    var lowered := ToLower(Extname(filePath));
    assert |lowered| == 0;
    EmptyExtensionNotListed(lowered);
  }

  lemma EmptyExtensionNotListed(ext: string)
    requires |ext| == 0
    ensures ext !in MimeTypes
  {
  }

  const JsonFence: string := "```json"

  const Fence: string := "```"

  /** `.replace(/```json\n?/g, '')`: scanning left to right, every "```json"
      is deleted together with one newline right after it. */
  function StripJsonFences(s: string): (r: string)
    ensures |r| <= |s|
    decreases |s|
  {
    if StartsWith(s, JsonFence) then
      if |s| >= 8 && s[7] == '\n' then StripJsonFences(s[8..]) else StripJsonFences(s[7..])
    else if s == [] then []
    else [s[0]] + StripJsonFences(s[1..])
  }

  /** `.replace(/```\n?/g, '')`: scanning left to right, every "```" is
      deleted together with one newline right after it. */
  function StripFences(s: string): (r: string)
    ensures |r| <= |s|
    decreases |s|
  {
    if StartsWith(s, Fence) then
      if |s| >= 4 && s[3] == '\n' then StripFences(s[4..]) else StripFences(s[3..])
    else if s == [] then []
    else [s[0]] + StripFences(s[1..])
  }

  /** The text handed to the JSON parser. */
  function CleanResponseText(text: string): (r: string)
    ensures NoOuterWhitespace(r)
    ensures NoFenceMarker(r)
  {
    StripFencesLeavesNoMarker(StripJsonFences(text));
    TrimKeepsNoFenceMarker(StripFences(StripJsonFences(text)));
    Trim(StripFences(StripJsonFences(text)))
  }

  /** Text without backticks in front of the rest passes the first fence
      filter untouched. */
  lemma {:induction false} StripJsonKeepsBacktickFreePrefix(x: string, y: string)
    requires '`' !in x
    ensures StripJsonFences(x + y) == x + StripJsonFences(y)
    decreases |x|
  {
    if x != [] {
      assert (x + y)[0] == x[0];
      if StartsWith(x + y, JsonFence) {
        StartsWithHead(x + y, JsonFence);
      }
      assert (x + y)[1..] == x[1..] + y;
      StripJsonKeepsBacktickFreePrefix(x[1..], y);
    } else {
      assert x + y == y;
    }
  }

  /** Text without backticks in front of the rest passes the second fence
      filter untouched. */
  lemma {:induction false} StripKeepsBacktickFreePrefix(x: string, y: string)
    requires '`' !in x
    ensures StripFences(x + y) == x + StripFences(y)
    decreases |x|
  {
    if x != [] {
      assert (x + y)[0] == x[0];
      StripFencesPlainHead(x + y);
      assert (x + y)[1..] == x[1..] + y;
      StripKeepsBacktickFreePrefix(x[1..], y);
      assert x == [x[0]] + x[1..];
    } else {
      assert x + y == y;
    }
  }

  /** A character other than a backtick is copied through. */
  lemma StripFencesPlainHead(s: string)
    requires s != [] && s[0] != '`'
    ensures StripFences(s) == [s[0]] + StripFences(s[1..])
  {
    assert !StartsWith(s, Fence) by {
      if StartsWith(s, Fence) {
        StartsWithHead(s, Fence);
      }
    }
  }

  /** A reply with no backtick is only trimmed. */
  lemma CleanPlainText(text: string)
    requires '`' !in text
    ensures CleanResponseText(text) == Trim(text)
  {
    StripJsonKeepsBacktickFreePrefix(text, "");
    StripKeepsBacktickFreePrefix(text, "");
    assert text + "" == text;
  }

  /** A reply wrapped as "```json", newline, body, "```" cleans to the
      trimmed body. */
  lemma CleanFencedJson(body: string)
    requires '`' !in body
    ensures CleanResponseText("```json\n" + body + "```") == Trim(body)
  {
    var text := "```json\n" + body + "```";
    assert text[..7] == JsonFence && text[7] == '\n';
    assert text[8..] == body + Fence;
    StripJsonKeepsBacktickFreePrefix(body, Fence);
    assert !StartsWith(Fence, JsonFence);
    assert StripJsonFences(Fence) == Fence;
    assert StripJsonFences(text) == body + Fence;
    StripKeepsBacktickFreePrefix(body, Fence);
    assert StartsWith(Fence, Fence);
    assert StripFences(Fence) == "";
    assert body + "" == body;
  }

  /** Three backticks start at index `i` of `s`. */
  predicate FenceAt(s: string, i: int) {
    0 <= i && i + 3 <= |s| && s[i] == '`' && s[i + 1] == '`' && s[i + 2] == '`'
  }

  predicate NoFenceMarker(s: string) {
    forall i :: 0 <= i < |s| ==> !FenceAt(s, i)
  }

  /** The fence filter keeps the first character of text that does not
      open with a fence. */
  lemma StripFencesKeepsHead(s: string)
    requires s != [] && !StartsWith(s, Fence)
    ensures StripFences(s) != [] && StripFences(s)[0] == s[0]
  {
  }

  /** Text that does not open with a fence does not gain one at its head
      through the fence filter. */
  lemma FenceFilterKeepsNoFenceAtHead(s: string)
    requires s != [] && !StartsWith(s, Fence)
    ensures !FenceAt([s[0]] + StripFences(s[1..]), 0)
  {
    var rest := StripFences(s[1..]);
    if s[0] == '`' {
      if |s| == 1 {
        assert rest == [];
      } else if s[1] != '`' {
        StripFencesKeepsHead(s[1..]);
      } else if |s| == 2 {
        assert s[1..] == "`";
        assert |rest| <= 1;
      } else {
        assert s[2] != '`';
        StripFencesKeepsHead(s[1..]);
        StripFencesKeepsHead(s[2..]);
        assert s[1..][1..] == s[2..];
        assert rest == [s[1]] + StripFences(s[2..]);
      }
    }
  }

  /** Whatever the reply, no "```" survives the fence filter. */
  lemma {:induction false} StripFencesLeavesNoMarker(s: string)
    ensures NoFenceMarker(StripFences(s))
    decreases |s|
  {
    if StartsWith(s, Fence) {
      if |s| >= 4 && s[3] == '\n' {
        StripFencesLeavesNoMarker(s[4..]);
      } else {
        StripFencesLeavesNoMarker(s[3..]);
      }
    } else if s != [] {
      var rest := StripFences(s[1..]);
      StripFencesLeavesNoMarker(s[1..]);
      var r := [s[0]] + rest;
      assert StripFences(s) == r;
      FenceFilterKeepsNoFenceAtHead(s);
      forall i | 0 <= i < |r| ensures !FenceAt(r, i) {
        if i > 0 {
          assert !FenceAt(rest, i - 1);
        }
      }
    }
  }

  lemma TrimKeepsNoFenceMarker(s: string)
    requires NoFenceMarker(s)
    ensures NoFenceMarker(Trim(s))
  {
    TrimIsSlice(s);
    NoFenceMarkerOfSlice(s, TrimOffset(s), TrimOffset(s) + |Trim(s)|);
  }

  /** A piece of text free of fence markers is free of them too. */
  lemma NoFenceMarkerOfSlice(s: string, lo: nat, hi: nat)
    requires lo <= hi <= |s| && NoFenceMarker(s)
    ensures NoFenceMarker(s[lo..hi])
  {
    var r := s[lo..hi];
    forall i | 0 <= i < |r| ensures !FenceAt(r, i) {
      if i + 3 <= |r| {
        assert !FenceAt(s, lo + i);
        assert r[i] == s[lo + i] && r[i + 1] == s[lo + i + 1] && r[i + 2] == s[lo + i + 2];
      }
    }
  }

  const ParseFailureMarker: string := "Failed to parse structured response"

  /** The degraded draft returned when the cleaned reply does not parse: it
      carries the raw, uncleaned reply. */
  function FallbackDraft(rawText: string): (d: Draft)
    ensures d.documentType == "unknown" && d.confidence == "low"
    ensures d.extractedData.Keys == {"rawResponse", "error"}
    ensures d.extractedData["rawResponse"] == rawText && d.extractedData["error"] == ParseFailureMarker
  {
    Draft("unknown", map["rawResponse" := rawText, "error" := ParseFailureMarker], "low")
  }

  /** The parse-or-degrade step of `analyzeDocument`. `parse` stands for
      `JSON.parse`, giving None where it would throw; a parsed object is used
      as it is, without any check of its shape. */
  function InterpretResponse(text: string, parse: string -> Option<Draft>): (d: Draft)
    ensures parse(CleanResponseText(text)).Some? ==> d == parse(CleanResponseText(text)).value
    ensures parse(CleanResponseText(text)).None? ==>
      && d.documentType == "unknown" && d.confidence == "low"
      && d.extractedData.Keys == {"rawResponse", "error"}
      && d.extractedData["rawResponse"] == text
      && d.extractedData["error"] == ParseFailureMarker
  {
    match parse(CleanResponseText(text))
    case Some(parsed) => parsed
    case None => FallbackDraft(text)
  }

  const AnalysisFailedPrefix: string := "Document analysis failed: "

  /** `analyzeDocument`. `reply` is what reading the file and calling the
      model produced: the model's text, or the message of the error thrown on
      the way. A thrown error comes back re-wrapped; an unparsable reply does
      not throw. */
  function AnalyzeDocument(reply: Result<string, string>, parse: string -> Option<Draft>): (r: Result<Draft, string>)
    ensures r.Success? <==> reply.Success?
    ensures reply.Success? ==> r.value == InterpretResponse(reply.value, parse)
    ensures reply.Failure? ==> r.error == AnalysisFailedPrefix + reply.error
  {
    match reply
    case Success(text) => Success(InterpretResponse(text, parse))
    case Failure(message) => Failure(AnalysisFailedPrefix + message)
  }

  /** Re-wrapping keeps the original message, and with it the substrings the
      route classifies errors by. */
  lemma RewrapKeepsClassification(message: string)
    ensures var wrapped := AnalysisFailedPrefix + message;
      && wrapped[|AnalysisFailedPrefix|..] == message
      && Contains(wrapped, "API key") == Contains(message, "API key")
      && Contains(wrapped, "rate limit") == Contains(message, "rate limit")
  {
    assert 'A' !in AnalysisFailedPrefix;
    assert 'r' !in AnalysisFailedPrefix;
    ContainsAfterForeignPrefix(AnalysisFailedPrefix, message, "API key");
    ContainsAfterForeignPrefix(AnalysisFailedPrefix, message, "rate limit");
  }
}
