/**
  The video-format check of src/video_transcription/audio_extractor.py:
  `Path(file_path).suffix.lower() in SUPPORTED_FORMATS`, with POSIX
  `pathlib` semantics for the file name and its suffix.
 */
module Formats {

  /** The fourteen container extensions the extractor accepts. */
  const SupportedFormats: set<string> :=
    {".mp4", ".avi", ".mov", ".mkv", ".flv", ".wmv", ".webm",
     ".m4v", ".mpg", ".mpeg", ".3gp", ".ogv", ".ts", ".mts"}

  /** Length of the prefix of `p` up to and including its last `/` (0 if none). */
  function LastSep(p: string): (k: nat)
    ensures k <= |p| && (k > 0 ==> p[k - 1] == '/')
    ensures forall j :: k <= j < |p| ==> p[j] != '/'
    decreases |p|
  {
    if p == [] then 0 else if p[|p| - 1] == '/' then |p| else LastSep(p[..|p| - 1])
  }

  /** `PurePath(p).name`: the last component, where empty components
      (repeated or trailing slashes) and `.` components do not count. */
  function Name(p: string): (r: string)
    ensures '/' !in r && r != "."
    decreases |p|
  {
    var k := LastSep(p);
    var last := p[k..];
    if last != "" && last != "." then last
    else if k == 0 then ""
    else Name(p[..k - 1])
  }

  /** `str.rfind('.')`: the index of the last `.`, or -1. */
  function LastDot(s: string): (i: int)
    ensures -1 <= i < |s| && (i >= 0 ==> s[i] == '.')
    ensures forall j :: i < j < |s| ==> s[j] != '.'
    decreases |s|
  {
    if s == [] then -1 else if s[|s| - 1] == '.' then |s| - 1 else LastDot(s[..|s| - 1])
  }

  /** `PurePath(p).suffix`: from the last `.` of the name, provided that dot
      is neither the first nor the last character of the name. */
  function Suffix(p: string): (r: string)
  {
    var name := Name(p);
    var i := LastDot(name);
    if 0 < i < |name| - 1 then name[i..] else ""
  }

  /** `str.lower()` on one character, as far as membership in an all-ASCII
      set can tell: A-Z, and KELVIN SIGN, the one other character whose lower
      case is a plain ASCII letter. Every other character either keeps or
      lowers to a non-ASCII character, and the model keeps it. */
  function LowerChar(c: char): char
  {
    if 'A' <= c <= 'Z' then (c as int + 32) as char
    else if c == '\U{212A}' then 'k'
    else c
  }

  function Lower(s: string): (r: string)
    ensures |r| == |s| && forall i :: 0 <= i < |s| ==> r[i] == LowerChar(s[i])
  {
    seq(|s|, i requires 0 <= i < |s| => LowerChar(s[i]))
  }

  /** `AudioExtractor.is_format_supported`. */
  function IsFormatSupported(p: string): (r: bool)
    ensures r ==> Suffix(p) != ""
  {
    Lower(Suffix(p)) in SupportedFormats
  }
  /** Every allowed extension is a dot followed by at least one character,
      none of them a dot, and is already in lower case. */
  lemma SupportedFormatsShape()
    ensures forall e :: e in SupportedFormats ==> ExtensionShaped(e)
  {
    assert ExtensionShaped(".mp4") && ExtensionShaped(".avi") && ExtensionShaped(".mov");
    assert ExtensionShaped(".mkv") && ExtensionShaped(".flv") && ExtensionShaped(".wmv");
    assert ExtensionShaped(".webm") && ExtensionShaped(".m4v") && ExtensionShaped(".mpg");
    assert ExtensionShaped(".mpeg") && ExtensionShaped(".3gp") && ExtensionShaped(".ogv");
    assert ExtensionShaped(".ts") && ExtensionShaped(".mts");
  }

  predicate ExtensionShaped(e: string)
  {
    |e| >= 2 && e[0] == '.'
    && forall j :: 1 <= j < |e| ==> e[j] != '.' && e[j] != '/' && LowerChar(e[j]) == e[j]
  }

  lemma AlreadyLower(s: string)
    requires forall j :: 0 <= j < |s| ==> LowerChar(s[j]) == s[j]
    ensures Lower(s) == s
  {
  }

  /** A non-empty suffix is a dot, then at least one character with no
      further dot, and it is a proper tail of the file name. */
  lemma SuffixShape(p: string)
    ensures var r := Suffix(p); var name := Name(p);
      r == "" || (|r| >= 2 && r[0] == '.' && '.' !in r[1..]
                  && |r| < |name| && r == name[|name| - |r|..])
  {
  }

  /** Independent reading of the check: accepted exactly when some tail of
      the file name that does not start at its first character is, in lower
      case, one of the allowed extensions. */
  lemma SupportedIff(p: string)
    ensures IsFormatSupported(p) <==>
      exists k :: 0 < k < |Name(p)| && Lower(Name(p)[k..]) in SupportedFormats
  {
    var name := Name(p);
    var i := LastDot(name);
    SuffixOf(p, name, i);
    if IsFormatSupported(p) {
      assert 0 < i < |name| - 1 && Lower(name[i..]) in SupportedFormats;
    }
    if k :| 0 < k < |name| && Lower(name[k..]) in SupportedFormats {
      SupportedFormatsShape();
      ShapedTailIsSuffix(name, k);
    }
  }

  /** A tail of a name that lowers to an extension-shaped string starts at
      the name's last dot and is longer than that dot alone. */
  lemma ShapedTailIsSuffix(name: string, k: int)
    requires 0 < k < |name| && ExtensionShaped(Lower(name[k..]))
    ensures LastDot(name) == k && k < |name| - 1
  {
    var e := Lower(name[k..]);
    LowerCharDot(name[k]);
    forall j | k < j < |name|
      ensures name[j] != '.'
    {
      LowerCharDot(name[j]);
      assert e[j - k] == LowerChar(name[j]);
    }
  }

  /** Only a dot lowers to a dot. */
  lemma LowerCharDot(c: char)
    ensures LowerChar(c) == '.' <==> c == '.'
  {
  }

  lemma {:induction false} LastSepAppend(p: string, t: string)
    requires '/' !in t
    ensures LastSep(p + t) == LastSep(p)
    decreases |t|
  {
    if t != [] {
      var t' := t[..|t| - 1];
      assert (p + t)[..|p + t| - 1] == p + t';
      LastSepAppend(p, t');
    } else {
      assert p + t == p;
    }
  }

  lemma {:induction false} LastDotAppend(a: string, x: string)
    requires '.' !in x
    ensures LastDot(a + "." + x) == |a|
    decreases |x|
  {
    if x != [] {
      var x' := x[..|x| - 1];
      assert (a + "." + x)[..|a + "." + x| - 1] == a + "." + x';
      LastDotAppend(a, x');
    } else {
      assert (a + "." + x)[..|a|] == a;
    }
  }

  /** Only the last extension matters: whatever `p` already ends in, adding
      `.x` makes `.x` the suffix and alone decides acceptance. */
  lemma FinalExtensionDecides(p: string, x: string)
    requires p != [] && p[|p| - 1] != '/'
    requires x != [] && '.' !in x && '/' !in x
    ensures Suffix(p + "." + x) == "." + x
    ensures IsFormatSupported(p + "." + x) <==> Lower("." + x) in SupportedFormats
  {
    var q := p + "." + x;
    assert q == p + ("." + x);
    LastSepAppend(p, "." + x);
    var k := LastSep(p);
    assert k < |p|;
    var stem := p[k..];
    assert q[k..] == stem + "." + x;
    assert Name(q) == stem + "." + x;
    LastDotAppend(stem, x);
    assert Name(q)[|stem|..] == "." + x;
  }

  /** A file name without a dot, or whose only dot is its first character,
      has an empty suffix and is rejected. */
  lemma NoExtensionRejected(p: string)
    requires forall j :: 0 < j < |Name(p)| ==> Name(p)[j] != '.'
    ensures Suffix(p) == "" && !IsFormatSupported(p)
  {
    LastDotAtMostZero(Name(p));
    assert Lower("") == "";
    SupportedFormatsShape();
  }

  lemma {:induction false} LastDotAtMostZero(s: string)
    requires forall j :: 0 < j < |s| ==> s[j] != '.'
    ensures LastDot(s) <= 0
    decreases |s|
  {
    if |s| > 1 {
      LastDotAtMostZero(s[..|s| - 1]);
    }
  }

  /** Trailing slashes do not change the name. */
  lemma NameTrailingSlash(p: string)
    ensures Name(p + "/") == Name(p)
  {
    assert (p + "/")[..|p|] == p;
  }

  /** The name is the part after the last slash, when that part is a real name. */
  lemma NameOfPath(dir: string, file: string)
    requires file != "" && file != "." && '/' !in file
    ensures Name(dir + "/" + file) == file
  {
    var q := dir + "/" + file;
    assert q == (dir + "/") + file;
    LastSepAppend(dir + "/", file);
    assert q[|dir| + 1..] == file;
  }

  /** A bare file name, with no directory part, is its own name. */
  lemma NameOfFile(file: string)
    requires file != "" && file != "." && '/' !in file
    ensures Name(file) == file
  {
    assert [] + file == file;
    LastSepAppend([], file);
  }

  lemma LowerSlice(s: string, i: nat, j: nat)
    requires i <= j <= |s|
    ensures Lower(s)[i..j] == Lower(s[i..j])
  {
  }

  lemma {:induction false} LastSepLower(p: string)
    ensures LastSep(Lower(p)) == LastSep(p)
    decreases |p|
  {
    if p != [] {
      LowerSlice(p, 0, |p| - 1);
      assert p[0..|p| - 1] == p[..|p| - 1];
      LastSepLower(p[..|p| - 1]);
    }
  }

  lemma {:induction false} NameLower(p: string)
    ensures Name(Lower(p)) == Lower(Name(p))
    decreases |p|
  {
    var k := LastSep(p);
    LastSepLower(p);
    LowerTail(p, k);
    var last := p[k..];
    LowerKeepsMarkers(last);
    if (last == "" || last == ".") && k != 0 {
      LowerHead(p, k - 1);
      NameLower(p[..k - 1]);
    }
  }

  lemma LowerTail(p: string, k: nat)
    requires k <= |p|
    ensures Lower(p)[k..] == Lower(p[k..])
  {
    LowerSlice(p, k, |p|);
    assert Lower(p)[k..] == Lower(p)[k..|p|] && p[k..] == p[k..|p|];
  }

  lemma LowerHead(p: string, k: nat)
    requires k <= |p|
    ensures Lower(p)[..k] == Lower(p[..k])
  {
    LowerSlice(p, 0, k);
    assert Lower(p)[..k] == Lower(p)[0..k] && p[..k] == p[0..k];
  }

  /** Lowering neither creates nor removes an empty or `.` component. */
  lemma LowerKeepsMarkers(s: string)
    ensures (Lower(s) == "") == (s == "")
    ensures (Lower(s) == ".") == (s == ".")
  {
    if |s| == 1 {
      assert Lower(s)[0] == LowerChar(s[0]);
    }
  }

  lemma {:induction false} LastDotLower(s: string)
    ensures LastDot(Lower(s)) == LastDot(s)
    decreases |s|
  {
    if s != [] {
      LowerSlice(s, 0, |s| - 1);
      assert s[0..|s| - 1] == s[..|s| - 1];
      LastDotLower(s[..|s| - 1]);
    }
  }

  /** Lower-casing commutes with taking the suffix. */
  lemma SuffixLower(p: string)
    ensures Suffix(Lower(p)) == Lower(Suffix(p))
  {
    var name := Name(p);
    var i := LastDot(name);
    NameLower(p);
    LastDotLower(name);
    SuffixOf(p, name, i);
    SuffixOf(Lower(p), Lower(name), i);
    if 0 < i < |name| - 1 {
      LowerTail(name, i);
    }
  }

  lemma SuffixOf(p: string, name: string, i: int)
    requires name == Name(p) && i == LastDot(name)
    ensures Suffix(p) == if 0 < i < |name| - 1 then name[i..] else ""
  {
  }

  /** The check is case-insensitive: paths that agree up to case, in the
      suffix or anywhere else, are accepted or rejected together. */
  lemma CaseInsensitive(p: string, q: string)
    requires Lower(p) == Lower(q)
    ensures IsFormatSupported(p) == IsFormatSupported(q)
  {
    SuffixLower(p);
    SuffixLower(q);
    LowerIdempotent(Suffix(p));
    LowerIdempotent(Suffix(q));
  }

  lemma LowerIdempotent(s: string)
    ensures Lower(Lower(s)) == Lower(s)
  {
  }

  /** Only the last extension counts: `a.srt.mp4` is accepted. */
  lemma InnerExtensionIgnored()
    ensures IsFormatSupported("a.srt.mp4")
  {
    LastSuffix("a.srt", "mp4", "a.srt.mp4");
    AlreadyLower(".mp4");
  }

  /** Only the last extension counts: `a.mp4.srt` is rejected. */
  lemma LastExtensionDecides()
    ensures !IsFormatSupported("a.mp4.srt")
  {
    LastSuffix("a.mp4", "srt", "a.mp4.srt");
    AlreadyLower(".srt");
    SrtNotSupported();
  }

  /** The three example paths, each split into a stem and its final extension. */
  lemma LastSuffix(p: string, x: string, q: string)
    requires (p == "a.srt" && x == "mp4" && q == "a.srt.mp4")
             || (p == "a.mp4" && x == "srt" && q == "a.mp4.srt")
             || (p == "videos/Clip" && x == "MKV" && q == "videos/Clip.MKV")
    ensures Suffix(q) == "." + x
  {
    assert p + "." + x == q;
    FinalExtensionDecides(p, x);
  }

  lemma SrtNotSupported()
    ensures ".srt" !in SupportedFormats
  {
  }

  /** An upper-case extension is accepted. */
  lemma UpperCaseAccepted()
    ensures IsFormatSupported("videos/Clip.MKV")
  {
    LastSuffix("videos/Clip", "MKV", "videos/Clip.MKV");
    UpperCaseLowered();
  }

  lemma UpperCaseLowered()
    ensures Lower(".MKV") == ".mkv"
  {
    var e := Lower(".MKV");
    assert e[0] == '.' && e[1] == 'm' && e[2] == 'k' && e[3] == 'v';
  }

  /** A bare leading-dot name is rejected. */
  lemma LeadingDotRejected()
    ensures !IsFormatSupported(".mp4")
  {
    NoExtensionRejected(".mp4");
  }

  /** A name without any dot is rejected. */
  lemma NoDotRejected()
    ensures !IsFormatSupported("movie")
  {
    NoExtensionRejected("movie");
  }

  /** A dot in a directory name does not give the file an extension. */
  lemma DirectoryDotRejected()
    ensures !IsFormatSupported("clips.mp4/raw")
  {
    NameOfPath("clips.mp4", "raw");
    NoExtensionRejected("clips.mp4/raw");
  }
}
