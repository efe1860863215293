/**
 The string rules of the recordings screen: the display name shown for a file,
 the extension the rename handler keeps, and the path a rename moves a file to.
 Strings are sequences of Unicode characters; every separator the rules
 look for ('.' and '/') is a single ASCII character.
 */
module FileNames {
  import opened Wrappers

  /** Index of the last occurrence of `c` in `s`, or None when `c` does not occur. */
  function LastIndexOf(s: string, c: char): (r: Option<nat>)
    ensures r.Some? ==> r.value < |s| && s[r.value] == c
    ensures r.Some? ==> forall j :: r.value < j < |s| ==> s[j] != c
    ensures r.None? <==> forall j :: 0 <= j < |s| ==> s[j] != c
  {
    if |s| == 0 then None
    else if s[|s| - 1] == c then Some(|s| - 1)
    else LastIndexOf(s[..|s| - 1], c)
  }

  /**
   The suffix the display-name pattern removes starts at `i`: `s[i]` is a dot,
   at least one character follows it, and none of the characters after it is
   a dot or a slash.
   */
  ghost predicate ExtensionAt(s: string, i: int) {
    0 <= i < |s| - 1 && s[i] == '.' &&
    forall j :: i < j < |s| ==> s[j] != '.' && s[j] != '/'
  }

  ghost predicate HasExtension(s: string) {
    exists i :: ExtensionAt(s, i)
  }

  /** A name has at most one such suffix. */
  lemma ExtensionAtUnique(s: string, i: int, k: int)
    requires ExtensionAt(s, i) && ExtensionAt(s, k)
    ensures i == k
  {
  }

  /** Where the extension of `s` starts, computed from its last dot. */
  function ExtensionDot(s: string): (r: Option<nat>)
    ensures r.Some? ==> ExtensionAt(s, r.value)
    ensures r.None? <==> !HasExtension(s)
  {
    match LastIndexOf(s, '.')
    case None => None
    case Some(i) =>
      if i < |s| - 1 && LastIndexOf(s[i + 1..], '/').None? then
        assert forall j :: i < j < |s| ==> s[i + 1..][j - i - 1] == s[j];
        assert ExtensionAt(s, i);
        Some(i)
      else
        NoExtensionPastLastDot(s, i);
        None
  }

  /** When the last dot of `s` does not start an extension, nothing does. */
  lemma NoExtensionPastLastDot(s: string, i: nat)
    requires i < |s| && s[i] == '.'
    requires forall j :: i < j < |s| ==> s[j] != '.'
    requires !(i < |s| - 1 && LastIndexOf(s[i + 1..], '/').None?)
    ensures !HasExtension(s)
  {
  }

  /** The display name: the file name with a final extension removed. */
  function StripExtension(name: string): (r: string)
    ensures r <= name
    ensures HasExtension(name) ==> ExtensionAt(name, |r|)
    ensures !HasExtension(name) ==> r == name
  {
    match ExtensionDot(name)
    case None => name
    case Some(i) => name[..i]
  }

  /** The extension the display name drops, without its dot, when there is one. */
  function ExtensionOf(s: string): (r: Option<string>)
    ensures r.Some? <==> HasExtension(s)
    ensures r.Some? ==> s == StripExtension(s) + "." + r.value
  {
    match ExtensionDot(s)
    case None => None
    case Some(i) =>
      assert s == s[..i] + "." + s[i + 1..];
      Some(s[i + 1..])
  }

  /** A text that can follow the last dot of a file name as its extension. */
  predicate PlainExtension(ext: string) {
    |ext| > 0 && forall j :: 0 <= j < |ext| ==> ext[j] != '.' && ext[j] != '/'
  }

  /** Adding an extension to a name and stripping it again gives the name back. */
  lemma StripAppended(base: string, ext: string)
    requires PlainExtension(ext)
    ensures StripExtension(base + "." + ext) == base
    ensures ExtensionOf(base + "." + ext) == Some(ext)
  {
    var s := base + "." + ext;
    assert forall j :: |base| < j < |s| ==> s[j] == ext[j - |base| - 1];
    assert ExtensionAt(s, |base|);
    var r := StripExtension(s);
    ExtensionAtUnique(s, |r|, |base|);
  }

  /** The parts of `s` between the occurrences of `sep`, as `split` gives them. */
  function Split(s: string, sep: char): (parts: seq<string>)
    ensures |parts| >= 1
  {
    if |s| == 0 then [""]
    else
      var init := Split(s[..|s| - 1], sep);
      if s[|s| - 1] == sep then init + [""]
      else init[..|init| - 1] + [init[|init| - 1] + [s[|s| - 1]]]
  }

  /** Splitting a string extended by one character: a separator opens a new, empty part; any other character extends the last part. */
  lemma SplitSnoc(t: string, c: char, sep: char)
    ensures var p := Split(t, sep);
            Split(t + [c], sep) == if c == sep then p + [""] else p[..|p| - 1] + [p[|p| - 1] + [c]]
  {
    assert (t + [c])[..|t|] == t;
  }

  /** No part of a split contains the separator. */
  lemma {:induction false} SplitPartsAvoidSep(s: string, sep: char)
    ensures var parts := Split(s, sep);
            forall k, j :: 0 <= k < |parts| && 0 <= j < |parts[k]| ==> parts[k][j] != sep
  {
    if |s| > 0 {
      var t, c := s[..|s| - 1], s[|s| - 1];
      assert s == t + [c];
      var p, parts := Split(t, sep), Split(s, sep);
      SplitSnoc(t, c, sep);
      SplitPartsAvoidSep(t, sep);
      forall k, j | 0 <= k < |parts| && 0 <= j < |parts[k]| ensures parts[k][j] != sep {
        if k < |p| - 1 || (c == sep && k < |p|) {
          assert parts[k] == p[k];
        } else if c != sep && j < |p[k]| {
          assert parts[k][j] == p[k][j];
        }
      }
    }
  }

  /** The parts put back together with `sep` between them. */
  function Join(parts: seq<string>, sep: char): string
    requires |parts| >= 1
  {
    if |parts| == 1 then parts[0]
    else Join(parts[..|parts| - 1], sep) + [sep] + parts[|parts| - 1]
  }

  /** Joining with one more, empty, part adds a separator at the end. */
  lemma JoinEmptyLast(parts: seq<string>, sep: char)
    requires |parts| >= 1
    ensures Join(parts + [""], sep) == Join(parts, sep) + [sep]
  {
    assert (parts + [""])[..|parts|] == parts;
  }

  /** Extending the last part by a character extends the joined string by it. */
  lemma JoinExtendLast(parts: seq<string>, sep: char, c: char)
    requires |parts| >= 1
    ensures var n := |parts|;
            Join(parts[..n - 1] + [parts[n - 1] + [c]], sep) == Join(parts, sep) + [c]
  {
    var n := |parts|;
    var q := parts[..n - 1] + [parts[n - 1] + [c]];
    assert q[..n - 1] == parts[..n - 1];
  }

  /** Splitting loses nothing: joining the parts again gives the string back. */
  lemma {:induction false} JoinSplit(s: string, sep: char)
    ensures Join(Split(s, sep), sep) == s
  {
    if |s| > 0 {
      var t, c := s[..|s| - 1], s[|s| - 1];
      assert s == t + [c];
      var p := Split(t, sep);
      SplitSnoc(t, c, sep);
      JoinSplit(t, sep);
      if c == sep {
        JoinEmptyLast(p, sep);
      } else {
        JoinExtendLast(p, sep, c);
      }
    }
  }

  /**
   The extension the rename handler keeps: the last part of the name split
   at dots, that is, the text after the last dot, or the whole name when it
   has no dot.
   */
  function RenameExtension(name: string): (ext: string)
    ensures |ext| <= |name| && ext == name[|name| - |ext|..]
    ensures forall j :: 0 <= j < |ext| ==> ext[j] != '.'
    ensures (forall j :: 0 <= j < |name| ==> name[j] != '.') ==> ext == name
    ensures (exists j :: 0 <= j < |name| && name[j] == '.') ==>
              name == name[..|name| - |ext| - 1] + "." + ext
  {
    match LastIndexOf(name, '.')
    case None => name
    case Some(i) =>
      assert name == name[..i] + "." + name[i + 1..];
      name[i + 1..]
  }

  /** The last part of a split, in terms of the split of the string without its last character. */
  lemma SplitLastPart(s: string, sep: char)
    requires |s| > 0
    ensures var p, q := Split(s[..|s| - 1], sep), Split(s, sep);
            q[|q| - 1] == if s[|s| - 1] == sep then "" else p[|p| - 1] + [s[|s| - 1]]
  {
  }

  /** The kept extension, in terms of that of the name without its last character. */
  lemma RenameExtensionLastChar(s: string)
    requires |s| > 0
    ensures RenameExtension(s) ==
              if s[|s| - 1] == '.' then "" else RenameExtension(s[..|s| - 1]) + [s[|s| - 1]]
  {
    var t := s[..|s| - 1];
    if s[|s| - 1] != '.' {
      match LastIndexOf(t, '.')
      case None =>
        assert s == t + [s[|s| - 1]];
      case Some(i) =>
        assert s[i + 1..] == t[i + 1..] + [s[|s| - 1]];
    }
  }

  /** The kept extension is exactly the last part `split('.')` returns. */
  lemma {:induction false} RenameExtensionIsLastPart(name: string)
    ensures var parts := Split(name, '.'); RenameExtension(name) == parts[|parts| - 1]
  {
    if |name| > 0 {
      RenameExtensionIsLastPart(name[..|name| - 1]);
      SplitLastPart(name, '.');
      RenameExtensionLastChar(name);
    }
  }

  /** The path the rename handler moves a file to, as written: the kept extension comes from the displayed name. */
  function RenamedPath(dir: string, text: string, name: string): (path: string)
    ensures PlainExtension(RenameExtension(name)) ==>
              ExtensionOf(path) == Some(RenameExtension(name)) && StripExtension(path) == dir + text
  {
    var ext := RenameExtension(name);
    var path := dir + text + "." + ext;
    if PlainExtension(ext) then StripAppended(dir + text, ext); path else path
  }

  /**
   Renaming an entry whose displayed name was produced by StripExtension
   replaces the file's extension by its old name: "take.m4a", shown as
   "take" and renamed to "memo", moves to "memo.take".
   */
  lemma RenamedPathDropsExtension(dir: string, text: string, base: string, ext: string)
    requires PlainExtension(base) && PlainExtension(ext)
    ensures StripExtension(base + "." + ext) == base
    ensures RenamedPath(dir, text, base) == dir + text + "." + base
    ensures ExtensionOf(RenamedPath(dir, text, base)) == Some(base)
    ensures ExtensionOf(dir + base + "." + ext) == Some(ext)
  {
    StripAppended(base, ext);
    StripAppended(dir + base, ext);
    assert RenameExtension(base) == base;
    StripAppended(dir + text, base);
  }

  /** The instance above, with the values of the example. */
  lemma RenamedTakeBecomesMemoDotTake()
    ensures StripExtension("take.m4a") == "take"
    ensures ExtensionOf("recordings/take.m4a") == Some("m4a")
    ensures RenamedPath("recordings/", "memo", "take") == "recordings/memo.take"
  {
    assert "take.m4a" == "take" + "." + "m4a";
    assert "recordings/take.m4a" == "recordings/" + "take" + "." + "m4a";
    assert "recordings/memo.take" == "recordings/" + "memo" + "." + "take";
    assert PlainExtension("take") && PlainExtension("m4a");
    RenamedPathDropsExtension("recordings/", "memo", "take", "m4a");
  }

  /**
   The path a rename moves a file to, with the extension taken from the
   file's own path, which still carries it; a file without an extension
   gets none.
   */
  function KeptExtensionPath(dir: string, text: string, uri: string): (path: string)
    ensures ExtensionOf(uri).Some? ==>
              ExtensionOf(path) == ExtensionOf(uri) && StripExtension(path) == dir + text
    ensures ExtensionOf(uri).None? ==> path == dir + text
  {
    match ExtensionOf(uri)
    case None => dir + text
    case Some(ext) =>
      StripAppended(dir + text, ext);
      dir + text + "." + ext
  }

  /** The name of a file: the last segment of its path. */
  function FileName(uri: string): (name: string)
    ensures |name| <= |uri| && name == uri[|uri| - |name|..]
    ensures forall j :: 0 <= j < |name| ==> name[j] != '/'
    ensures (forall j :: 0 <= j < |uri| ==> uri[j] != '/') ==> name == uri
    ensures (exists j :: 0 <= j < |uri| && uri[j] == '/') ==>
              |name| < |uri| && uri[|uri| - |name| - 1] == '/'
  {
    match LastIndexOf(uri, '/')
    case None => uri
    case Some(i) => uri[i + 1..]
  }
}
