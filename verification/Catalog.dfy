/*
 * Resolving a star: the exact-name catalog lookup, Python's whitespace
 * `str.split()` as used to build file names, and the per-instrument chains of
 * alias file names tried in order until one exists.
 */
module Catalog {
  import opened Tables

  /** A catalog cell that may be empty (read by pandas as NaN). */
  datatype CatalogValue = Present(text: string) | Absent

  /** The catalog fields the pipeline reads. */
  datatype CatalogEntry = CatalogEntry(
    hdName: string,
    gjName: CatalogValue,
    hipName: CatalogValue,
    tycho2Id: CatalogValue,
    bvMag: real,           // sy_bvmag
    spectralType: string)  // st_spectype

  datatype CatalogError = NoCatalogEntry(hdName: string)

  // ---------------------------------------------------------------------------
  // Catalog lookup

  /** The rows whose `hd_name` equals `name` exactly, in catalog order. */
  function Matching(catalog: seq<CatalogEntry>, name: string): seq<CatalogEntry>
  {
    if catalog == [] then []
    else (if catalog[0].hdName == name then [catalog[0]] else []) + Matching(catalog[1..], name)
  }

  lemma {:induction false} MatchingFirst(catalog: seq<CatalogEntry>, name: string)
    ensures Matching(catalog, name) == [] <==> forall i :: 0 <= i < |catalog| ==> catalog[i].hdName != name
    ensures Matching(catalog, name) != [] ==>
      exists i :: 0 <= i < |catalog| && catalog[i] == Matching(catalog, name)[0] && catalog[i].hdName == name &&
        forall j :: 0 <= j < i ==> catalog[j].hdName != name
  {
    if catalog != [] {
      MatchingFirst(catalog[1..], name);
      if catalog[0].hdName != name && Matching(catalog[1..], name) != [] {
        var i :| 0 <= i < |catalog[1..]| && catalog[1..][i] == Matching(catalog[1..], name)[0] &&
          catalog[1..][i].hdName == name && forall j :: 0 <= j < i ==> catalog[1..][j].hdName != name;
        assert catalog[i + 1] == Matching(catalog, name)[0];
        forall j | 0 <= j < i + 1 ensures catalog[j].hdName != name {
          if j > 0 { assert catalog[j] == catalog[1..][j - 1]; }
        }
      }
    }
  }

  /** `_load_catalog_entry`: the first row whose `hd_name` is exactly `name`;
      several matches are not an error, none is. */
  function LoadCatalogEntry(catalog: seq<CatalogEntry>, name: string): (r: Result<CatalogEntry, CatalogError>)
    ensures r.Failure? <==> forall i :: 0 <= i < |catalog| ==> catalog[i].hdName != name
    ensures r.Failure? ==> r.error == NoCatalogEntry(name)
    ensures r.Success? ==>
      exists i :: 0 <= i < |catalog| && catalog[i] == r.value && r.value.hdName == name &&
        forall j :: 0 <= j < i ==> catalog[j].hdName != name
  {
    MatchingFirst(catalog, name);
    var found := Matching(catalog, name);
    if |found| == 0 then Failure(NoCatalogEntry(name)) else Success(found[0])
  }

  // ---------------------------------------------------------------------------
  // Whitespace handling of names

  /** Python's `str.isspace()` for one character. */
  predicate IsSpace(c: char)
  {
    var n := c as int;
    (9 <= n <= 13) || (28 <= n <= 32) || n == 0x85 || n == 0xA0 || n == 0x1680 ||
    (0x2000 <= n <= 0x200A) || n == 0x2028 || n == 0x2029 || n == 0x202F ||
    n == 0x205F || n == 0x3000
  }

  /** Length of the run of non-space characters that starts `s`. */
  function WordLength(s: string): (n: nat)
    ensures n <= |s|
    ensures forall i :: 0 <= i < n ==> !IsSpace(s[i])
    ensures n < |s| ==> IsSpace(s[n])
  {
    if s == [] || IsSpace(s[0]) then 0 else 1 + WordLength(s[1..])
  }

  /** `s.split()` with no separator: the maximal runs of non-space characters. */
  function Tokens(s: string): seq<string>
    decreases |s|
  {
    if s == [] then []
    else if IsSpace(s[0]) then Tokens(s[1..])
    else
      var n := WordLength(s);
      [s[..n]] + Tokens(s[n..])
  }

  /** A run without whitespace, followed by whitespace or the end, is the
      whole leading word. */
  lemma {:induction false} WordLengthOfRun(w: string, rest: string)
    requires forall i :: 0 <= i < |w| ==> !IsSpace(w[i])
    requires rest == [] || IsSpace(rest[0])
    ensures WordLength(w + rest) == |w|
  {
    if w != [] {
      assert (w + rest)[1..] == w[1..] + rest;
      WordLengthOfRun(w[1..], rest);
    } else {
      assert w + rest == rest;
    }
  }

  /** `split()` takes a word followed by whitespace or the end as one token. */
  lemma TokensOfWordThenRest(w: string, rest: string)
    requires IsWord(w) && (rest == [] || IsSpace(rest[0]))
    ensures Tokens(w + rest) == [w] + Tokens(rest)
  {
    WordLengthOfRun(w, rest);
    var s := w + rest;
    assert s[0] == w[0];
    assert s[..|w|] == w && s[|w|..] == rest;
  }

  /** `split()` skips a leading whitespace character. */
  lemma TokensOfSpaceThenRest(c: char, rest: string)
    requires IsSpace(c)
    ensures Tokens([c] + rest) == Tokens(rest)
  {
    assert ([c] + rest)[1..] == rest;
  }

  /** `'HD 12 AB'.split()` is `['HD', '12', 'AB']`. */
  lemma TokensExample()
    ensures Tokens("HD 12 AB") == ["HD", "12", "AB"]
  {
    TokensOfTail();
    ExampleSplitsAfterHd();
    assert IsWord("HD") && IsSpace(' ');
    TokensOfWordThenRest("HD", " 12 AB");
  }

  lemma ExampleSplitsAfterHd()
    ensures "HD 12 AB" == "HD" + " 12 AB"
    ensures " 12 AB"[0] == ' '
  {
  }

  lemma TokensOfTail()
    ensures Tokens(" 12 AB") == ["12", "AB"]
  {
    var last := " AB";
    TokensOfLast();
    assert IsWord("12") && IsSpace(last[0]);
    TokensOfWordThenRest("12", last);
    assert " 12 AB" == [' '] + ("12" + last);
    TokensOfSpaceThenRest(' ', "12" + last);
  }

  lemma TokensOfLast()
    ensures Tokens(" AB") == ["AB"]
  {
    assert IsWord("AB");
    TokensOfWordThenRest("AB", []);
    assert "AB" + [] == "AB";
    assert " AB" == [' '] + "AB";
    TokensOfSpaceThenRest(' ', "AB");
  }

  /** `''.join('HD 12 AB'.split()[:-1])` is `HD12`: only the last run goes. */
  lemma DropLastTokenExample()
    ensures DropLastToken("HD 12 AB") == "HD12"
  {
    TokensExample();
    var ts := Tokens("HD 12 AB");
    assert ts[..|ts| - 1] == ["HD", "12"];
    assert Join(["HD", "12"]) == "HD" + ("12" + "");
  }

  /** `''.join(parts)`. */
  function Join(parts: seq<string>): string
  {
    if parts == [] then "" else parts[0] + Join(parts[1..])
  }

  /** Reference definition: `s` with every whitespace character removed. */
  function RemoveSpaces(s: string): string
  {
    if s == [] then "" else (if IsSpace(s[0]) then "" else [s[0]]) + RemoveSpaces(s[1..])
  }

  lemma {:induction false} RemoveSpacesOfWord(s: string, n: nat)
    requires n <= |s|
    requires forall i :: 0 <= i < n ==> !IsSpace(s[i])
    ensures RemoveSpaces(s) == s[..n] + RemoveSpaces(s[n..])
  {
    if n > 0 {
      RemoveSpacesOfWord(s[1..], n - 1);
      assert s[1..][..n - 1] == s[1..n];
      assert s[1..][n - 1..] == s[n..];
      assert [s[0]] + s[1..n] == s[..n];
    }
  }

  /** A non-empty run of non-space characters. */
  predicate IsWord(t: string)
  {
    t != [] && forall i :: 0 <= i < |t| ==> !IsSpace(t[i])
  }

  /** Each token is a word, and the tokens joined give the name with all
      whitespace removed. */
  lemma {:induction false} TokensJoin(s: string)
    ensures Join(Tokens(s)) == RemoveSpaces(s)
    ensures forall k :: 0 <= k < |Tokens(s)| ==> IsWord(Tokens(s)[k])
    decreases |s|
  {
    if s != [] {
      if IsSpace(s[0]) {
        TokensJoin(s[1..]);
      } else {
        var n := WordLength(s);
        TokensJoin(s[n..]);
        RemoveSpacesOfWord(s, n);
        assert Tokens(s) == [s[..n]] + Tokens(s[n..]);
      }
    }
  }

  /** `''.join(name.split())`. */
  function Squeeze(name: string): string
  {
    Join(Tokens(name))
  }

  /** `''.join(name.split()[:-1])`: the name without its last token, squeezed. */
  function DropLastToken(name: string): string
  {
    var ts := Tokens(name);
    if ts == [] then "" else Join(ts[..|ts| - 1])
  }

  lemma {:induction false} JoinAppend(parts: seq<string>, last: string)
    ensures Join(parts + [last]) == Join(parts) + last
  {
    if parts != [] {
      assert (parts + [last])[1..] == parts[1..] + [last];
      JoinAppend(parts[1..], last);
    }
  }

  /** Joining all parts is joining all but the last, then the last. */
  lemma JoinDropLast(parts: seq<string>)
    requires parts != [] && parts[|parts| - 1] != []
    ensures Join(parts) == Join(parts[..|parts| - 1]) + parts[|parts| - 1]
    ensures |Join(parts[..|parts| - 1])| < |Join(parts)|
  {
    var init, last := parts[..|parts| - 1], parts[|parts| - 1];
    assert parts == init + [last];
    JoinAppend(init, last);
  }

  /** The qualifier-stripped name is the squeezed name minus its last token: a
      proper prefix of it whenever the name has a token. */
  lemma DropLastTokenIsPrefix(name: string)
    requires Tokens(name) != []
    ensures Squeeze(name) == DropLastToken(name) + Tokens(name)[|Tokens(name)| - 1]
    ensures |DropLastToken(name)| < |Squeeze(name)|
    ensures Squeeze(name) == RemoveSpaces(name)
  {
    var ts := Tokens(name);
    TokensJoin(name);
    assert IsWord(ts[|ts| - 1]);
    JoinDropLast(ts);
  }

  // ---------------------------------------------------------------------------
  // Alias chains

  datatype Instrument = Harps | Hires

  /** One alias strategy: where a candidate file name comes from. */
  datatype Alias =
    | HdName              // the HD name, whitespace removed
    | HdWithoutQualifier  // only if 'A' occurs in the HD name: its last token dropped
    | GjName              // the catalog's gj_name, whitespace removed
    | HipName             // the catalog's hip_name, whitespace removed
    | TychoName           // 'TYC' + str(tycho2_id)

  /** The order in which each instrument's loader tries aliases. */
  function Chain(inst: Instrument): seq<Alias>
  {
    match inst
    case Harps => [HdName, HdWithoutQualifier, GjName, HipName, TychoName]
    case Hires => [HdName, HdWithoutQualifier, HipName]
  }

  /** `str(x)` of a catalog cell; an empty cell prints as 'nan'. */
  function CellText(v: CatalogValue): string
  {
    if v.Present? then v.text else "nan"
  }

  /** The name an alias yields, or None when the alias does not apply: no 'A'
      in the HD name, or an empty catalog cell. */
  function AliasName(a: Alias, hdName: string, e: CatalogEntry): Option<string>
  {
    match a
    case HdName => Some(Squeeze(hdName))
    case HdWithoutQualifier => if 'A' in hdName then Some(DropLastToken(hdName)) else None
    case GjName => if e.gjName.Present? then Some(Squeeze(e.gjName.text)) else None
    case HipName => if e.hipName.Present? then Some(Squeeze(e.hipName.text)) else None
    case TychoName => Some("TYC" + CellText(e.tycho2Id))
  }

  /** The archive file an instrument's loader opens for a name. */
  function ArchivePath(inst: Instrument, dataDir: string, name: string): string
  {
    match inst
    case Harps => dataDir + "harps_rv_bank" + "/" + name + ".csv"
    case Hires => dataDir + "ebps_keck_hires" + "/" + name + "_KECK.vels"
  }

  /** Distinct names give distinct archive files. */
  lemma ArchivePathInjective(inst: Instrument, dataDir: string, n1: string, n2: string)
    ensures ArchivePath(inst, dataDir, n1) == ArchivePath(inst, dataDir, n2) ==> n1 == n2
  {
    var pre := dataDir + (if inst == Harps then "harps_rv_bank" else "ebps_keck_hires") + "/";
    var suf := if inst == Harps then ".csv" else "_KECK.vels";
    assert ArchivePath(inst, dataDir, n1) == pre + n1 + suf;
    assert ArchivePath(inst, dataDir, n2) == pre + n2 + suf;
    if pre + n1 + suf == pre + n2 + suf {
      assert |n1| == |n2|;
      assert (pre + n1 + suf)[|pre|..|pre| + |n1|] == n1;
      assert (pre + n2 + suf)[|pre|..|pre| + |n2|] == n2;
    }
  }

  /** The path one alias contributes: none, or one. */
  function AliasPaths(inst: Instrument, a: Alias, dataDir: string, hdName: string, e: CatalogEntry): seq<string>
  {
    match AliasName(a, hdName, e)
    case Some(n) => [ArchivePath(inst, dataDir, n)]
    case None => []
  }

  /** The paths tried, in order, for the aliases of `chain` that apply. */
  function Candidates(inst: Instrument, chain: seq<Alias>, dataDir: string, hdName: string, e: CatalogEntry): seq<string>
  {
    if chain == [] then []
    else AliasPaths(inst, chain[0], dataDir, hdName, e) + Candidates(inst, chain[1..], dataDir, hdName, e)
  }

  /** The first path of `paths` that exists. */
  function FirstExisting<T>(paths: seq<string>, files: map<string, T>): Option<string>
  {
    if paths == [] then None
    else if paths[0] in files then Some(paths[0])
    else FirstExisting(paths[1..], files)
  }

  lemma {:induction false} FirstExistingIsFirst<T>(paths: seq<string>, files: map<string, T>)
    ensures FirstExisting(paths, files).None? <==> forall k :: 0 <= k < |paths| ==> paths[k] !in files
    ensures FirstExisting(paths, files).Some? ==>
      exists k :: 0 <= k < |paths| && paths[k] == FirstExisting(paths, files).value && paths[k] in files &&
        forall j :: 0 <= j < k ==> paths[j] !in files
  {
    if paths != [] && paths[0] !in files {
      FirstExistingIsFirst(paths[1..], files);
      if FirstExisting(paths[1..], files).Some? {
        var k :| 0 <= k < |paths[1..]| && paths[1..][k] == FirstExisting(paths[1..], files).value &&
          paths[1..][k] in files && forall j :: 0 <= j < k ==> paths[1..][j] !in files;
        assert paths[k + 1] == paths[1..][k];
        forall j | 0 <= j < k + 1 ensures paths[j] !in files {
          if j > 0 { assert paths[j] == paths[1..][j - 1]; }
        }
      }
    }
  }

  /** The path an instrument's loader ends up reading, if any. */
  function ResolvedPath<T>(inst: Instrument, dataDir: string, hdName: string, e: CatalogEntry, files: map<string, T>): Option<string>
  {
    FirstExisting(Candidates(inst, Chain(inst), dataDir, hdName, e), files)
  }

  /** The table an instrument's loader returns, or None for FileNotFoundError. */
  function Loaded<T>(inst: Instrument, dataDir: string, hdName: string, e: CatalogEntry, files: map<string, T>): Option<T>
  {
    match ResolvedPath(inst, dataDir, hdName, e, files)
    case Some(p) => if p in files then Some(files[p]) else None
    case None => None
  }

  /** `_load_harps_rvbank_data` and `_load_hires_ebps_data`: walk the alias
      chain and return the contents of the first candidate file that exists;
      None when every attempt fails (the FileNotFoundError the constructor
      swallows). */
  method LoadArchive<T>(inst: Instrument, dataDir: string, hdName: string, e: CatalogEntry, files: map<string, T>)
    returns (r: Option<T>)
    ensures r.Some? <==>
      exists k :: 0 <= k < |Candidates(inst, Chain(inst), dataDir, hdName, e)| &&
                  Candidates(inst, Chain(inst), dataDir, hdName, e)[k] in files
    ensures r == Loaded(inst, dataDir, hdName, e, files)
  {
    var chain := Chain(inst);
    var i := 0;
    while i < |chain|
      invariant 0 <= i <= |chain|
      invariant FirstExisting(Candidates(inst, chain, dataDir, hdName, e), files)
             == FirstExisting(Candidates(inst, chain[i..], dataDir, hdName, e), files)
    {
      assert chain[i..][1..] == chain[i + 1..];
      var rest := Candidates(inst, chain[i + 1..], dataDir, hdName, e);
      var name := AliasName(chain[i], hdName, e);
      if name.Some? {
        var path := ArchivePath(inst, dataDir, name.value);
        assert Candidates(inst, chain[i..], dataDir, hdName, e) == [path] + rest;
        if path in files {
          FirstExistingIsFirst(Candidates(inst, chain, dataDir, hdName, e), files);
          return Some(files[path]);
        }
        assert ([path] + rest)[1..] == rest;
      } else {
        assert Candidates(inst, chain[i..], dataDir, hdName, e) == rest;
      }
      i := i + 1;
    }
    FirstExistingIsFirst(Candidates(inst, chain, dataDir, hdName, e), files);
    return None;
  }

  /** The HIRES loader never reads the GJ name or the Tycho-2 identifier. */
  lemma HiresIgnoresGjAndTycho(dataDir: string, hdName: string, e: CatalogEntry, gj: CatalogValue, tyc: CatalogValue)
    ensures Candidates(Hires, Chain(Hires), dataDir, hdName, e)
         == Candidates(Hires, Chain(Hires), dataDir, hdName, e.(gjName := gj, tycho2Id := tyc))
  {
    var e' := e.(gjName := gj, tycho2Id := tyc);
    var c := Chain(Hires);
    assert c[1..][1..][1..] == [];
    assert Candidates(Hires, c[2..], dataDir, hdName, e) == Candidates(Hires, c[2..], dataDir, hdName, e');
  }

  /** The HARPS candidates in order: HD name, the qualifier-stripped HD name
      when 'A' occurs in it, GJ name, HIP name, Tycho-2 name. */
  lemma HarpsCandidateOrder(dataDir: string, hdName: string, e: CatalogEntry)
    ensures Candidates(Harps, Chain(Harps), dataDir, hdName, e) ==
      [ArchivePath(Harps, dataDir, Squeeze(hdName))] +
      ((if 'A' in hdName then [ArchivePath(Harps, dataDir, DropLastToken(hdName))] else []) +
       ((if e.gjName.Present? then [ArchivePath(Harps, dataDir, Squeeze(e.gjName.text))] else []) +
        ((if e.hipName.Present? then [ArchivePath(Harps, dataDir, Squeeze(e.hipName.text))] else []) +
         [ArchivePath(Harps, dataDir, "TYC" + CellText(e.tycho2Id))])))
  {
    var c := Chain(Harps);
    var P := (a: Alias) => AliasPaths(Harps, a, dataDir, hdName, e);
    assert c[4..][1..] == [];
    assert Candidates(Harps, c[4..], dataDir, hdName, e) == P(TychoName);
    assert c[3..][1..] == c[4..];
    assert Candidates(Harps, c[3..], dataDir, hdName, e) == P(HipName) + P(TychoName);
    assert c[2..][1..] == c[3..];
    assert Candidates(Harps, c[2..], dataDir, hdName, e) == P(GjName) + (P(HipName) + P(TychoName));
    assert c[1..][1..] == c[2..];
    assert Candidates(Harps, c[1..], dataDir, hdName, e) == P(HdWithoutQualifier) + (P(GjName) + (P(HipName) + P(TychoName)));
    assert Candidates(Harps, c, dataDir, hdName, e) ==
      P(HdName) + (P(HdWithoutQualifier) + (P(GjName) + (P(HipName) + P(TychoName))));
  }

  /** The HIRES candidates in order: HD name, the qualifier-stripped HD name
      when 'A' occurs in it, HIP name. */
  lemma HiresCandidateOrder(dataDir: string, hdName: string, e: CatalogEntry)
    ensures Candidates(Hires, Chain(Hires), dataDir, hdName, e) ==
      [ArchivePath(Hires, dataDir, Squeeze(hdName))] +
      (if 'A' in hdName then [ArchivePath(Hires, dataDir, DropLastToken(hdName))] else []) +
      (if e.hipName.Present? then [ArchivePath(Hires, dataDir, Squeeze(e.hipName.text))] else [])
  {
    var c := Chain(Hires);
    var P := (a: Alias) => AliasPaths(Hires, a, dataDir, hdName, e);
    assert c[2..][1..] == [];
    assert Candidates(Hires, c[2..], dataDir, hdName, e) == P(HipName);
    assert c[1..][1..] == c[2..];
    assert Candidates(Hires, c[1..], dataDir, hdName, e) == P(HdWithoutQualifier) + P(HipName);
    assert Candidates(Hires, c, dataDir, hdName, e) == P(HdName) + (P(HdWithoutQualifier) + P(HipName));
  }

  // ---------------------------------------------------------------------------
  // The chain as written: `.split()` on an empty (NaN) catalog cell

  /** Outcome of the loader as written: a file, FileNotFoundError, or the
      AttributeError raised by calling `.split()` on a NaN cell, which no
      caller catches. */
  datatype Attempt = Found(path: string) | NotFound | Crashed

  /** The name an alias yields as written: the GJ and HIP branches call
      `.split()` on the cell without checking it. */
  function AliasNameAsWritten(a: Alias, hdName: string, e: CatalogEntry): Result<Option<string>, Alias>
  {
    match a
    case GjName => if e.gjName.Present? then Success(Some(Squeeze(e.gjName.text))) else Failure(GjName)
    case HipName => if e.hipName.Present? then Success(Some(Squeeze(e.hipName.text))) else Failure(HipName)
    case _ => Success(AliasName(a, hdName, e))
  }

  /** The loader as written, attempt by attempt. */
  function WalkAsWritten<T>(inst: Instrument, chain: seq<Alias>, dataDir: string, hdName: string, e: CatalogEntry,
                            files: map<string, T>): Attempt
  {
    if chain == [] then NotFound
    else
      match AliasNameAsWritten(chain[0], hdName, e)
      case Failure(_) => Crashed
      case Success(Some(n)) =>
        if ArchivePath(inst, dataDir, n) in files then Found(ArchivePath(inst, dataDir, n))
        else WalkAsWritten(inst, chain[1..], dataDir, hdName, e, files)
      case Success(None) => WalkAsWritten(inst, chain[1..], dataDir, hdName, e, files)
  }

  /** Where the loader as written does not crash, it agrees with the corrected
      chain; with both alternate names present it never crashes. */
  lemma {:induction false} WalkAsWrittenAgrees<T>(inst: Instrument, chain: seq<Alias>, dataDir: string, hdName: string,
                                                  e: CatalogEntry, files: map<string, T>)
    ensures WalkAsWritten(inst, chain, dataDir, hdName, e, files) != Crashed ==>
      (WalkAsWritten(inst, chain, dataDir, hdName, e, files) == NotFound <==>
       FirstExisting(Candidates(inst, chain, dataDir, hdName, e), files).None?) &&
      forall p :: WalkAsWritten(inst, chain, dataDir, hdName, e, files) == Found(p) <==>
        FirstExisting(Candidates(inst, chain, dataDir, hdName, e), files) == Some(p)
    ensures e.gjName.Present? && e.hipName.Present? ==> WalkAsWritten(inst, chain, dataDir, hdName, e, files) != Crashed
  {
    if chain != [] {
      WalkAsWrittenAgrees(inst, chain[1..], dataDir, hdName, e, files);
      var rest := Candidates(inst, chain[1..], dataDir, hdName, e);
      match AliasNameAsWritten(chain[0], hdName, e)
      case Failure(_) =>
      case Success(Some(n)) =>
        var path := ArchivePath(inst, dataDir, n);
        assert Candidates(inst, chain, dataDir, hdName, e) == [path] + rest;
        assert ([path] + rest)[1..] == rest;
      case Success(None) =>
        assert Candidates(inst, chain, dataDir, hdName, e) == rest;
    }
  }

  /** The example star of the lemmas below: no GJ name, a HIP name, and a
      HARPS archive filed under that HIP name only. */
  function ExampleEntry(): CatalogEntry
  {
    CatalogEntry("HD 1", Absent, Present("HIP 5"), Absent, 0.6, "G2V")
  }

  function ExampleFiles(): map<string, int>
  {
    map[ArchivePath(Harps, "", "HIP5") := 0]
  }

  /** The HARPS loader as written crashes on the example star's empty GJ cell. */
  lemma GjCellCrashesLoader()
    ensures WalkAsWritten(Harps, Chain(Harps), "", "HD 1", ExampleEntry(), ExampleFiles()) == Crashed
  {
    var e, files, c := ExampleEntry(), ExampleFiles(), Chain(Harps);
    SqueezeHd1();
    NoQualifierInHd1();
    var hd := ArchivePath(Harps, "", "HD1");
    ArchivePathInjective(Harps, "", "HD1", "HIP5");
    assert hd !in files;
    assert AliasNameAsWritten(c[0], "HD 1", e) == Success(Some("HD1"));
    assert WalkAsWritten(Harps, c, "", "HD 1", e, files) == WalkAsWritten(Harps, c[1..], "", "HD 1", e, files);
    assert c[1..][0] == HdWithoutQualifier && c[1..][1..] == c[2..];
    assert WalkAsWritten(Harps, c[1..], "", "HD 1", e, files) == WalkAsWritten(Harps, c[2..], "", "HD 1", e, files);
    assert c[2..][0] == GjName;
  }

  /** The corrected chain skips the empty GJ cell and finds the example star's
      archive under its HIP name. */
  lemma GjCellSkipped()
    ensures ResolvedPath(Harps, "", "HD 1", ExampleEntry(), ExampleFiles()) == Some(ArchivePath(Harps, "", "HIP5"))
  {
    var hd, hip := ArchivePath(Harps, "", "HD1"), ArchivePath(Harps, "", "HIP5");
    var tyc := ArchivePath(Harps, "", "TYC" + CellText(ExampleEntry().tycho2Id));
    ExampleHarpsCandidates();
    ArchivePathInjective(Harps, "", "HD1", "HIP5");
    assert hd !in ExampleFiles() && hip in ExampleFiles();
    assert [hd, hip, tyc][1..] == [hip, tyc];
  }

  /** The HARPS candidates of the example star: its HD name, its HIP name and
      the Tycho-2 name of its empty cell. */
  lemma ExampleHarpsCandidates()
    ensures Candidates(Harps, Chain(Harps), "", "HD 1", ExampleEntry()) ==
      [ArchivePath(Harps, "", "HD1"), ArchivePath(Harps, "", "HIP5"),
       ArchivePath(Harps, "", "TYC" + CellText(ExampleEntry().tycho2Id))]
  {
    var e := ExampleEntry();
    HarpsCandidateOrder("", "HD 1", e);
    SqueezeHd1();
    SqueezeHip5();
    NoQualifierInHd1();
    assert !e.gjName.Present? && e.hipName.Present? && e.hipName.text == "HIP 5";
  }

  /** "HD 1" has no 'A', so the qualifier-stripped alias does not apply. */
  lemma NoQualifierInHd1()
    ensures 'A' !in "HD 1"
  {
    assert "HD 1" == ['H', 'D', ' ', '1'];
  }

  lemma SqueezeHd1()
    ensures Squeeze("HD 1") == "HD1"
  {
    assert WordLength(" 1") == 0;
    assert WordLength("D 1") == 1;
    assert WordLength("HD 1") == 2;
    assert "HD 1"[2..] == " 1" && " 1"[1..] == "1";
    assert WordLength("1") == 1;
    assert "1"[..1] == "1" && "1"[1..] == [];
    assert Tokens("1") == ["1"];
    assert "HD 1"[..2] == "HD";
    assert Tokens(" 1") == ["1"];
    assert Tokens("HD 1") == ["HD", "1"];
  }

  lemma SqueezeHip5()
    ensures Squeeze("HIP 5") == "HIP5"
  {
    assert WordLength(" 5") == 0;
    assert WordLength("P 5") == 1;
    assert WordLength("IP 5") == 2;
    assert WordLength("HIP 5") == 3;
    assert "HIP 5"[3..] == " 5" && " 5"[1..] == "5";
    assert WordLength("5") == 1;
    assert "5"[..1] == "5" && "5"[1..] == [];
    assert Tokens("5") == ["5"];
    assert "HIP 5"[..3] == "HIP";
    assert Tokens(" 5") == ["5"];
    assert Tokens("HIP 5") == ["HIP", "5"];
  }
}
