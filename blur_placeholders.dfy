/**
 * The build script that writes `lib/image-placeholders.ts`: every image in
 * the images directory (by extension) is turned into a tiny base64 preview
 * stored under a camelCase key derived from the file name.
 */
module BlurPlaceholders {
  import opened Wrappers
  import opened Strings

  const ImageExtensions: seq<string> := [".jpg", ".jpeg", ".png", ".webp"]

  /** `s.lastIndexOf(c)`, `None` standing for -1. */
  function LastIndexOf(s: string, c: char): (r: Option<nat>)
    ensures r.Some? ==> r.value < |s| && s[r.value] == c && c !in s[r.value + 1..]
    ensures r.None? <==> c !in s
  {
    if s == [] then None
    else if s[|s| - 1] == c then Some(|s| - 1)
    else
      var r := LastIndexOf(s[..|s| - 1], c);
      assert s == s[..|s| - 1] + [s[|s| - 1]];
      r
  }

  /** The last `c` of `p + [c] + q` is the one after `p` when `q` has none. */
  lemma {:induction false} LastIndexOfAfter(p: string, c: char, q: string)
    requires c !in q
    ensures LastIndexOf(p + [c] + q, c) == Some(|p|)
    decreases |q|
  {
    var s := p + [c] + q;
    if q != [] {
      assert s[..|s| - 1] == p + [c] + q[..|q| - 1];
      LastIndexOfAfter(p, c, q[..|q| - 1]);
    }
  }

  /**
   * `f.toLowerCase().slice(f.lastIndexOf('.'))`; without a '.', `slice(-1)`
   * gives the last character.
   */
  function ExtensionOf(f: string): (ext: string)
    ensures '.' in f ==> |ext| >= 1 && ext[0] == '.' && '.' !in ext[1..]
    ensures '.' !in f ==> |ext| <= 1
  {
    match LastIndexOf(f, '.')
    case Some(d) => Lower(f)[d..]
    case None => if f == [] then [] else Lower(f)[|f| - 1..]
  }

  /** The filter on the directory listing. */
  predicate IsImageFile(f: string): (ok: bool)
    ensures ok ==> '.' in f && 4 <= |ExtensionOf(f)| <= 5
  {
    ExtensionOf(f) in ImageExtensions
  }

  /** A name without a '.' is never taken: one character is no extension. */
  lemma NoDotNotImage(f: string)
    requires '.' !in f
    ensures !IsImageFile(f)
  {
  }

  /** The extension of `base.ext` is the dot and the lower-cased `ext`. */
  lemma ExtensionOfDotted(base: string, ext: string)
    requires '.' !in ext
    ensures ExtensionOf(base + ['.'] + ext) == ['.'] + Lower(ext)
  {
    var f := base + ['.'] + ext;
    LastIndexOfAfter(base, '.', ext);
    var t := Lower(f)[|base|..];
    assert LowerChar('.') == '.';
    forall k | 0 <= k < |t| ensures t[k] == (['.'] + Lower(ext))[k] {
      if k > 0 {
        assert f[|base| + k] == ext[k - 1];
      }
    }
  }

  /** A name is taken exactly when its lower-cased last extension is one of the four. */
  lemma ImageFileByExtension(base: string, ext: string)
    requires '.' !in ext
    ensures IsImageFile(base + "." + ext) <==> "." + Lower(ext) in ImageExtensions
  {
    assert base + "." + ext == base + ['.'] + ext;
    ExtensionOfDotted(base, ext);
  }

  /** `f.replace(/\.[^.]+$/, '')`: the last '.' and what follows it, if something follows. */
  function StripExtension(f: string): (r: string)
    ensures r <= f
  {
    match LastIndexOf(f, '.')
    case Some(d) => if d < |f| - 1 then f[..d] else f
    case None => f
  }

  /** Only the final extension goes: "a.b.jpg" keeps "a.b". */
  lemma StripExtensionOf(base: string, ext: string)
    requires ext != [] && '.' !in ext
    ensures StripExtension(base + "." + ext) == base
  {
    LastIndexOfAfter(base, '.', ext);
    assert base + "." + ext == base + ['.'] + ext;
  }

  /** `s.replace(/-([a-z])/g, (_, c) => c.toUpperCase())`, scanning from the left. */
  function CamelCase(s: string): (r: string)
    ensures |r| <= |s|
  {
    if s == [] then []
    else if |s| >= 2 && s[0] == '-' && IsLowerAscii(s[1]) then [UpperChar(s[1])] + CamelCase(s[2..])
    else [s[0]] + CamelCase(s[1..])
  }

  /** No '-' directly before a lower-case ASCII letter. */
  predicate NoKebab(s: string) {
    forall i :: 0 <= i < |s| - 1 ==> !(s[i] == '-' && IsLowerAscii(s[i + 1]))
  }

  /** The first character of the camelCase form, when there is one. */
  lemma {:induction false} CamelCaseHead(s: string)
    requires s != []
    ensures CamelCase(s) != []
    ensures CamelCase(s)[0] == '-' ==> s[0] == '-' && (|s| == 1 || !IsLowerAscii(s[1]))
    ensures !IsLowerAscii(s[0]) && s[0] != '-' ==> CamelCase(s)[0] == s[0]
    ensures s[0] == '-' ==> !IsLowerAscii(CamelCase(s)[0])
  {
  }

  /** camelCase leaves no "-x" pair behind. */
  lemma {:induction false} CamelCaseNoKebab(s: string)
    ensures NoKebab(CamelCase(s))
    decreases |s|
  {
    if s == [] {
    } else if |s| >= 2 && s[0] == '-' && IsLowerAscii(s[1]) {
      CamelCaseNoKebab(s[2..]);
      var r := CamelCase(s);
      assert forall i :: 1 <= i < |r| ==> r[i] == CamelCase(s[2..])[i - 1];
    } else {
      CamelCaseNoKebab(s[1..]);
      var r := CamelCase(s);
      var t := CamelCase(s[1..]);
      assert forall i :: 1 <= i < |r| ==> r[i] == t[i - 1];
      if s[0] == '-' && |s| >= 2 {
        CamelCaseHead(s[1..]);
        assert !IsLowerAscii(r[1]) by {
          if s[1] == '-' {
          } else {
            assert t[0] == s[1];
          }
        }
      }
    }
  }

  /** A string with no "-x" pair is its own camelCase form. */
  lemma {:induction false} CamelCaseNoKebabFixed(s: string)
    requires NoKebab(s)
    ensures CamelCase(s) == s
    decreases |s|
  {
    if s != [] {
      assert NoKebab(s[1..]) by {
        assert forall i :: 0 <= i < |s| - 1 ==> s[1..][i] == s[i + 1];
      }
      CamelCaseNoKebabFixed(s[1..]);
    }
  }

  /** Key derivation's camelCase step is idempotent. */
  lemma CamelCaseIdempotent(s: string)
    ensures CamelCase(CamelCase(s)) == CamelCase(s)
  {
    CamelCaseNoKebab(s);
    CamelCaseNoKebabFixed(CamelCase(s));
  }

  /** A piece without '-' passes through camelCase unchanged. */
  lemma {:induction false} CamelCasePrefix(p: string, rest: string)
    requires '-' !in p
    ensures CamelCase(p + rest) == p + CamelCase(rest)
    decreases |p|
  {
    if p == [] {
      assert p + rest == rest;
    } else {
      assert (p + rest)[1..] == p[1..] + rest;
      CamelCasePrefix(p[1..], rest);
    }
  }

  /** The key under which a file's placeholder is stored. */
  function KeyOf(f: string): (key: string)
    ensures NoKebab(key)
  {
    CamelCaseNoKebab(StripExtension(f));
    CamelCase(StripExtension(f))
  }

  /** A hyphen before a lower-case letter turns into that letter's capital. */
  lemma CamelCaseStep(w: string)
    requires w != [] && IsLowerAscii(w[0])
    ensures CamelCase("-" + w) == [UpperChar(w[0])] + CamelCase(w[1..])
  {
    assert ("-" + w)[2..] == w[1..];
  }

  /** A name without '-' is its own camelCase form. */
  lemma CamelCaseNoHyphen(x: string)
    requires '-' !in x
    ensures CamelCase(x) == x
  {
    CamelCasePrefix(x, []);
    assert x + [] == x;
  }

  /** A hyphen before a lower-case letter after a first word turns into that letter's capital. */
  lemma CamelCaseAfterWord(a: string, b: string)
    requires '-' !in a && b != [] && IsLowerAscii(b[0])
    ensures CamelCase(a + "-" + b) == a + ([UpperChar(b[0])] + CamelCase(b[1..]))
  {
    var w := ['-'] + b;
    assert a + "-" + b == a + w;
    CamelCasePrefix(a, w);
    CamelCaseStep(b);
  }

  /** A two-word kebab-case name becomes camelCase. */
  lemma CamelCaseTwoWords(a: string, b: string)
    requires '-' !in a && '-' !in b
    requires b != [] && IsLowerAscii(b[0])
    ensures CamelCase(a + "-" + b) == a + [UpperChar(b[0])] + b[1..]
  {
    CamelCaseAfterWord(a, b);
    CamelCaseNoHyphen(b[1..]);
    assert a + ([UpperChar(b[0])] + b[1..]) == a + [UpperChar(b[0])] + b[1..];
  }

  /** The key of `base.ext` is the camelCase form of `base`. */
  lemma KeyOfBaseExt(base: string, ext: string)
    requires ext != [] && '.' !in ext
    ensures KeyOf(base + "." + ext) == CamelCase(base)
  {
    StripExtensionOf(base, ext);
  }

  /** Dropping the extension of "union-station.jpg" leaves "union-station" to camelCase. */
  lemma UnionStationBase()
    ensures KeyOf("union-station.jpg") == CamelCase("union-station")
  {
    var base, ext := "union-station", "jpg";
    assert "union-station.jpg" == base + "." + ext;
    KeyOfBaseExt(base, ext);
  }

  /** "union-station" camelCases to "unionStation". */
  lemma UnionStationCamel()
    ensures CamelCase("union-station") == "unionStation"
  {
    var a, b := "union", "station";
    assert "union-station" == a + "-" + b;
    CamelCaseTwoWords(a, b);
    assert a + [UpperChar(b[0])] + b[1..] == "unionStation";
  }

  /** "union-station.jpg" is stored as "unionStation". */
  lemma UnionStationKey()
    ensures KeyOf("union-station.jpg") == "unionStation"
  {
    UnionStationBase();
    UnionStationCamel();
  }

  /** A placeholder table in insertion order of its keys, as `Object.entries` lists it. */
  type Entries = seq<(string, string)>

  predicate KeysDistinct(e: Entries) {
    forall i, j :: 0 <= i < j < |e| ==> e[i].0 != e[j].0
  }

  function Lookup(e: Entries, key: string): (r: Option<string>)
    ensures r.None? <==> forall i :: 0 <= i < |e| ==> e[i].0 != key
  {
    if e == [] then None
    else if e[|e| - 1].0 == key then Some(e[|e| - 1].1)
    else Lookup(e[..|e| - 1], key)
  }

  /** `placeholders[key] = value`: an existing key keeps its place and takes the new value. */
  function Put(e: Entries, key: string, value: string): (r: Entries)
    requires KeysDistinct(e)
    ensures KeysDistinct(r)
    ensures |r| == |e| || |r| == |e| + 1
    ensures forall i :: 0 <= i < |e| ==> r[i].0 == e[i].0
  {
    match IndexOfKey(e, key)
    case Some(i) => e[i := (key, value)]
    case None => e + [(key, value)]
  }

  function IndexOfKey(e: Entries, key: string): (r: Option<nat>)
    ensures r.Some? ==> r.value < |e| && e[r.value].0 == key
    ensures r.None? ==> forall i :: 0 <= i < |e| ==> e[i].0 != key
  {
    if e == [] then None
    else if e[|e| - 1].0 == key then Some(|e| - 1)
    else IndexOfKey(e[..|e| - 1], key)
  }

  /** Lookup after `Put`: the new value under its key, everything else as before. */
  lemma {:induction false} LookupPut(e: Entries, key: string, value: string, k: string)
    requires KeysDistinct(e)
    ensures Lookup(Put(e, key, value), k) == if k == key then Some(value) else Lookup(e, k)
  {
    var r := Put(e, key, value);
    match IndexOfKey(e, key)
    case None =>
      assert r[..|r| - 1] == e;
    case Some(i) =>
      LookupDistinct(r, k);
      LookupDistinct(e, k);
  }

  /** With distinct keys, a lookup finds the one entry holding the key. */
  lemma {:induction false} LookupDistinct(e: Entries, k: string)
    requires KeysDistinct(e)
    ensures forall i :: 0 <= i < |e| && e[i].0 == k ==> Lookup(e, k) == Some(e[i].1)
    decreases |e|
  {
    if e != [] {
      var init := e[..|e| - 1];
      assert KeysDistinct(init);
      LookupDistinct(init, k);
      forall i | 0 <= i < |e| - 1 && e[i].0 == k
        ensures Lookup(e, k) == Some(e[i].1)
      {
        assert init[i] == e[i];
      }
    }
  }

  /** Processing each file, in directory order; `preview` is `None` for a file whose processing throws. */
  function Collect(files: seq<string>, preview: string -> Option<string>): (e: Entries)
    ensures KeysDistinct(e)
  {
    if files == [] then []
    else
      var prev := Collect(files[..|files| - 1], preview);
      var f := files[|files| - 1];
      if IsImageFile(f) && preview(f).Some? then Put(prev, KeyOf(f), preview(f).value) else prev
  }

  /**
   * The value a key ends up with: the preview of the last image file with
   * that key whose processing succeeded.
   */
  function LastPreview(files: seq<string>, key: string, preview: string -> Option<string>): Option<string> {
    if files == [] then None
    else
      var f := files[|files| - 1];
      if IsImageFile(f) && KeyOf(f) == key && preview(f).Some? then preview(f)
      else LastPreview(files[..|files| - 1], key, preview)
  }

  /**
   * Later files overwrite earlier ones with the same key, and a file that
   * fails or is not an image contributes nothing.
   */
  lemma {:induction false} CollectLookup(files: seq<string>, preview: string -> Option<string>, key: string)
    ensures Lookup(Collect(files, preview), key) == LastPreview(files, key, preview)
    decreases |files|
  {
    if files != [] {
      var f := files[|files| - 1];
      CollectLookup(files[..|files| - 1], preview, key);
      if IsImageFile(f) && preview(f).Some? {
        LookupPut(Collect(files[..|files| - 1], preview), KeyOf(f), preview(f).value, key);
      }
    }
  }

  /** The loop of `generatePlaceholders`, over the directory listing. */
  method GeneratePlaceholders(files: seq<string>, preview: string -> Option<string>) returns (placeholders: Entries)
    ensures placeholders == Collect(files, preview)
    ensures forall key :: Lookup(placeholders, key) == LastPreview(files, key, preview)
  {
    placeholders := [];
    for i := 0 to |files|
      invariant placeholders == Collect(files[..i], preview)
    {
      assert files[..i + 1][..i] == files[..i];
      var f := files[i];
      if IsImageFile(f) {
        var p := preview(f);
        if p.Some? {
          placeholders := Put(placeholders, KeyOf(f), p.value);
        }
      }
    }
    assert files[..|files|] == files;
    forall key ensures Lookup(placeholders, key) == LastPreview(files, key, preview) {
      CollectLookup(files, preview, key);
    }
  }

  /** One generated line, `  key: 'value',`. */
  function EntryLine(key: string, value: string): string {
    "  " + key + ": '" + value + "',"
  }

  /** The object literal's lines, one per key in table order. */
  function EntryLines(e: Entries): (lines: seq<string>)
    ensures |lines| == |e|
  {
    seq(|e|, i requires 0 <= i < |e| => EntryLine(e[i].0, e[i].1))
  }

  /**
   * When no key holds a ':', the text before a line's first ':' is its key
   * behind two spaces, so distinct keys give distinct lines.
   */
  lemma EntryLinesOnePerKey(e: Entries)
    requires KeysDistinct(e)
    requires forall i :: 0 <= i < |e| ==> ':' !in e[i].0
    ensures forall i :: 0 <= i < |e| ==> Split(EntryLines(e)[i], ':')[0] == "  " + e[i].0
    ensures forall i, j :: 0 <= i < j < |e| ==> EntryLines(e)[i] != EntryLines(e)[j]
  {
    forall i | 0 <= i < |e| ensures Split(EntryLines(e)[i], ':')[0] == "  " + e[i].0 {
      var head := "  " + e[i].0;
      assert ':' !in head;
      assert EntryLines(e)[i] == head + [':'] + (" '" + e[i].1 + "',");
      SplitPrefix(head, ':', " '" + e[i].1 + "',");
    }
    forall i, j | 0 <= i < j < |e| ensures EntryLines(e)[i] != EntryLines(e)[j] {
      assert ("  " + e[i].0)[2..] == e[i].0 && ("  " + e[j].0)[2..] == e[j].0;
    }
  }
}
