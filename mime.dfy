/**
 * The MIME type sent with each uploaded file: the extension of its path,
 * lower-cased and without its dot, looked up in a fixed table; a type
 * starting with "text/" makes the file be read and sent as text.
 */
module Mime {
  import opened Text

  /** Lower-case of an ASCII letter; every other character is unchanged. */
  function LowerChar(c: char): char
  {
    if 'A' <= c <= 'Z' then (c as int + 32) as char else c
  }

  /** `s.lower()` for ASCII text. */
  function ToLower(s: string): (r: string)
    ensures |r| == |s|
    ensures forall k :: 0 <= k < |s| ==> r[k] == LowerChar(s[k])
  {
    if s == [] then [] else ToLower(s[..|s| - 1]) + [LowerChar(s[|s| - 1])]
  }

  /** Every character of `s` is '.'. */
  predicate AllDots(s: string)
  {
    forall k :: 0 <= k < |s| ==> s[k] == '.'
  }

  /** The second half of POSIX `os.path.splitext(path)`: from the last '.'
      of the last component, unless everything before it in that component
      is dots (a hidden file such as ".bashrc" has no extension). */
  function ExtensionPart(path: string): string
  {
    var sep := LastIndexOf(path, '/');
    var dot := LastIndexOf(path, '.');
    if dot > sep && !AllDots(path[sep + 1..dot]) then path[dot..] else []
  }

  /** `s.lstrip('.')`. */
  function StripLeadingDots(s: string): (r: string)
    ensures EndsWith(s, r) && (r == [] || r[0] != '.')
    ensures AllDots(s[..|s| - |r|])
    decreases |s|
  {
    if s != [] && s[0] == '.' then StripLeadingDots(s[1..]) else s
  }

  /** The extension `upload_files` computes for a path. */
  function Extension(path: string): string
  {
    StripLeadingDots(ToLower(ExtensionPart(path)))
  }

  /** `fileExtensionToMimeType`. */
  function MimeType(ext: string): (r: string)
    ensures r in {"application/pdf", "image/png", "image/jpeg", "text/markdown", "text/org", "text/plain"}
    ensures ext == "pdf" <==> r == "application/pdf"
    ensures ext == "png" <==> r == "image/png"
    ensures ext in {"jpg", "jpeg"} <==> r == "image/jpeg"
    ensures ext in {"md", "markdown"} <==> r == "text/markdown"
    ensures ext == "org" <==> r == "text/org"
  {
    if ext == "pdf" then "application/pdf"
    else if ext == "png" then "image/png"
    else if ext in {"jpg", "jpeg"} then "image/jpeg"
    else if ext in {"md", "markdown"} then "text/markdown"
    else if ext == "org" then "text/org"
    else "text/plain"
  }

  /** The file is read and sent as text. */
  predicate IsTextMime(mime: string)
  {
    StartsWith(mime, "text/")
  }

  /** A file is sent as text exactly when its extension is none of the
      four binary ones. */
  lemma TextUnlessBinary(ext: string)
    ensures IsTextMime(MimeType(ext)) <==> ext !in {"pdf", "png", "jpg", "jpeg"}
  {
    var r := MimeType(ext);
    if ext in {"pdf", "png", "jpg", "jpeg"} {
      assert r[0] != 't';
    } else {
      assert r[..5] == "text/";
    }
  }

  /** A character that is neither '.' nor '/'. */
  predicate IsExtensionChar(c: char)
  {
    c != '.' && c != '/'
  }

  lemma LowerKeepsExtensionChars(s: string)
    requires forall k :: 0 <= k < |s| ==> IsExtensionChar(s[k])
    ensures forall k :: 0 <= k < |ToLower(s)| ==> IsExtensionChar(ToLower(s)[k])
  {
  }

  lemma LastDotOf(prefix: string, ext: string)
    requires forall k :: 0 <= k < |ext| ==> IsExtensionChar(ext[k])
    ensures LastIndexOf(prefix + "." + ext, '.') == |prefix|
  {
    LastIndexAt(prefix, '.', ext);
  }

  /** A file name with an extension has no '/'. */
  lemma NameLacksSlash(stem: string, ext: string)
    requires forall k :: 0 <= k < |stem| ==> stem[k] != '/'
    requires forall k :: 0 <= k < |ext| ==> IsExtensionChar(ext[k])
    ensures Lacks(stem + "." + ext, '/')
  {
    var name := stem + "." + ext;
    forall k | 0 <= k < |name| ensures name[k] != '/' {
      if k > |stem| { assert name[k] == ext[k - |stem| - 1]; }
    }
  }

  /** The last '/' of a directory followed by a plain name ends the
      directory. */
  lemma LastSlashOf(dir: string, name: string)
    requires dir == [] || dir[|dir| - 1] == '/'
    requires Lacks(name, '/')
    ensures LastIndexOf(dir + name, '/') == |dir| - 1
  {
    if dir == [] {
      assert dir + name == name;
      NoLastIndex(name, '/');
    } else {
      var parent := dir[..|dir| - 1];
      assert dir == parent + ['/'];
      LastIndexAt(parent, '/', name);
    }
  }

  lemma ExtensionPartOf(dir: string, stem: string, ext: string)
    requires dir == [] || dir[|dir| - 1] == '/'
    requires !AllDots(stem) && forall k :: 0 <= k < |stem| ==> stem[k] != '/'
    requires forall k :: 0 <= k < |ext| ==> IsExtensionChar(ext[k])
    ensures ExtensionPart(dir + stem + "." + ext) == "." + ext
  {
    var path := dir + stem + "." + ext;
    var prefix, dotted, name := dir + stem, "." + ext, stem + "." + ext;
    LastDotOf(prefix, ext);
    NameLacksSlash(stem, ext);
    assert path == dir + name;
    LastSlashOf(dir, name);
    assert path == prefix + dotted;
    assert path[|prefix|..] == dotted;
    assert path[..|prefix|] == prefix;
    assert path[|dir|..|prefix|] == prefix[|dir|..] == stem;
  }

  lemma LowerDottedExtension(dotted: string, ext: string)
    requires dotted != [] && dotted[0] == '.' && dotted[1..] == ext
    requires forall k :: 0 <= k < |ext| ==> IsExtensionChar(ext[k])
    ensures StripLeadingDots(ToLower(dotted)) == ToLower(ext)
  {
    var t := ToLower(ext);
    var lowered := ToLower(dotted);
    assert lowered[0] == '.';
    assert lowered[1..] == t;
    LowerKeepsExtensionChars(ext);
    assert t == [] || t[0] != '.';
  }

  /** The extension of `dir + stem + "." + ext` is `ext` lower-cased, when
      `dir` is empty or ends in '/', `stem` is not all dots and has no '/',
      and `ext` has no '.' nor '/'. */
  lemma ExtensionOf(dir: string, stem: string, ext: string)
    requires dir == [] || dir[|dir| - 1] == '/'
    requires !AllDots(stem) && forall k :: 0 <= k < |stem| ==> stem[k] != '/'
    requires forall k :: 0 <= k < |ext| ==> IsExtensionChar(ext[k])
    ensures Extension(dir + stem + "." + ext) == ToLower(ext)
  {
    ExtensionPartOf(dir, stem, ext);
    LowerDottedExtension("." + ext, ext);
  }

  /** A name made only of leading dots and a dot-free rest, such as
      ".bashrc", has no extension. */
  lemma HiddenFileHasNoExtension(dir: string, dots: string, name: string)
    requires dir == [] || dir[|dir| - 1] == '/'
    requires dots != [] && AllDots(dots)
    requires forall k :: 0 <= k < |name| ==> IsExtensionChar(name[k])
    ensures Extension(dir + dots + name) == []
  {
    var path := dir + dots + name;
    var last := |dir| + |dots| - 1;
    assert LastIndexOf(path, '.') == last by {
      assert path[last] == dots[|dots| - 1];
      forall k | last < k < |path| ensures path[k] != '.' { assert path[k] == name[k - last - 1]; }
    }
    assert LastIndexOf(path, '/') == |dir| - 1 by {
      forall k | |dir| <= k < |path| ensures path[k] != '/' {
        if k <= last { assert path[k] == dots[k - |dir|]; }
        else { assert path[k] == name[k - last - 1]; }
      }
      if dir != [] { assert path[|dir| - 1] == '/'; }
    }
    forall k | |dir| <= k < last ensures path[k] == '.' { assert path[k] == dots[k - |dir|]; }
    assert AllDots(path[|dir|..last]);
  }

  /** A name such as "report.PDF" is sent as "application/pdf": the
      extension is compared lower-cased. */
  lemma UpperCaseExtension(dir: string, stem: string, ext: string)
    requires dir == [] || dir[|dir| - 1] == '/'
    requires !AllDots(stem) && forall k :: 0 <= k < |stem| ==> stem[k] != '/'
    requires ext == "PDF"
    ensures MimeType(Extension(dir + stem + "." + ext)) == "application/pdf"
  {
    assert IsExtensionChar(ext[0]) && IsExtensionChar(ext[1]) && IsExtensionChar(ext[2]);
    ExtensionOf(dir, stem, ext);
    var lower := ToLower(ext);
    assert lower[0] == 'p' && lower[1] == 'd' && lower[2] == 'f';
    assert lower == "pdf";
  }
}
