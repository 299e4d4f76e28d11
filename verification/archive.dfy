/**
 * Archive format resolution (src/transfer.py, `archive_map` and `archive_factory`).
 */
module Archive {
  import opened Wrappers

  /**
   * A value of `archive_map`: a tuple of stage names, or, for 'zip', the plain
   * string 'zip' (the source writes `('zip')`, which Python reads as a string).
   */
  datatype ChainValue = Stages(names: seq<string>) | Text(s: string)

  const ArchiveMap: map<string, ChainValue> := map[
    "tar"     := Stages(["tar"]),
    "tar.gz"  := Stages(["tar", "gz"]),
    "tgz"     := Stages(["tar", "gz"]),
    "tar.bz2" := Stages(["tar", "bz2"]),
    "tbz2"    := Stages(["tar", "bz2"]),
    "gz"      := Stages(["gz"]),
    "bz2"     := Stages(["bz2"]),
    "zip"     := Text("zip")
  ]

  /** Python's `x in s` on two strings: `x` occurs contiguously in `s`. */
  predicate Substring(x: string, s: string)
    decreases |s|
  {
    x <= s || (|s| > 0 && Substring(x, s[1..]))
  }

  /** Python's `x in chain`: tuple membership, or a substring test for a plain string. */
  predicate In(x: string, c: ChainValue)
  {
    match c
    case Stages(names) => x in names
    case Text(s) => Substring(x, s)
  }

  function LowerChar(c: char): char
  {
    if 'A' <= c <= 'Z' then (c as int + 32) as char else c
  }

  /** `str.lower()` restricted to ASCII letters. */
  function Lower(s: string): (r: string)
    ensures |r| == |s|
    ensures forall i :: 0 <= i < |s| ==> r[i] == LowerChar(s[i])
  {
    if s == [] then [] else [LowerChar(s[0])] + Lower(s[1..])
  }

  /** The error text of the `ValueError` raised for an unknown format. */
  function FormatError(lowered: string): string
  {
    "undiscernible archive format '" + lowered + "'"
  }

  /**
   * The `tarfile` mode suffix the code derives from a chain: a tar chain that
   * also names gzip or bzip2 streams through it, anything else adds nothing.
   */
  function ModeSuffix(c: ChainValue): (r: string)
    ensures r in {"", "|gz", "|bz2"}
    ensures r != "" ==> In("tar", c)
  {
    if In("tar", c) then
      if In("gz", c) then "|gz" else if In("bz2", c) then "|bz2" else ""
    else ""
  }

  datatype Resolution = Resolution(chain: ChainValue, mode: string)

  /**
   * The stream suffix each registered format stands for, read off the format
   * names: the two spellings of a gzip-compressed tarball stream through "|gz",
   * the two spellings of a bzip2-compressed one through "|bz2", every other
   * format adds nothing.
   */
  function StreamSuffix(format: string): string
  {
    if format in {"tar.gz", "tgz"} then "|gz"
    else if format in {"tar.bz2", "tbz2"} then "|bz2"
    else ""
  }

  /** 'zip' does not contain 'tar'. */
  lemma TarNotInZip()
    ensures !Substring("tar", "zip")
  {
    assert "zip"[1..] == "ip" && "ip"[1..] == "p" && "p"[1..] == "";
    assert "tar"[0] != "zip"[0];
    assert !Substring("tar", "");
    assert !Substring("tar", "p");
    assert !Substring("tar", "ip");
  }

  /**
   * The membership tests of `archive_factory` give every registered format
   * exactly the suffix its name stands for, 'zip' (a plain string, tested by
   * substring) included.
   */
  lemma SuffixFollowsFormat(key: string)
    requires key in ArchiveMap
    ensures ModeSuffix(ArchiveMap[key]) == StreamSuffix(key)
  {
    if key == "zip" {
      TarNotInZip();
    }
  }

  /**
   * `archive_factory(mode, ext)`: look the lower-cased format up; an unknown one
   * raises `ValueError` naming the lower-cased format; a tar chain that also
   * compresses gets the matching stream-mode suffix.
   */
  function ArchiveFactory(mode: string, ext: string): (r: Result<Resolution, string>)
    ensures r.Failure? <==> Lower(ext) !in ArchiveMap
    ensures r.Failure? ==> r.error == FormatError(Lower(ext))
    ensures r.Success? ==> r.value.chain == ArchiveMap[Lower(ext)]
                           && r.value.mode == mode + StreamSuffix(Lower(ext))
  {
    var lowered := Lower(ext);
    if lowered !in ArchiveMap then Failure(FormatError(lowered))
    else
      var chain := ArchiveMap[lowered];
      SuffixFollowsFormat(lowered);
      Success(Resolution(chain, mode + ModeSuffix(chain)))
  }

  /**
   * `archive_factory` as the code is written: the lookup and its error are the
   * same, but the body ends without `return`, so a registered format yields
   * `None` and the chain and stream mode it computed are lost.
   */
  function ArchiveFactoryAsWritten(mode: string, ext: string): (r: Result<(), string>)
    ensures r.Failure? <==> ArchiveFactory(mode, ext).Failure?
    ensures r.Failure? ==> r.error == ArchiveFactory(mode, ext).error
  {
    var lowered := Lower(ext);
    if lowered !in ArchiveMap then Failure(FormatError(lowered)) else Success(())
  }

  lemma {:induction false} LowerIdempotent(s: string)
    ensures Lower(Lower(s)) == Lower(s)
  {
    if s != [] {
      LowerIdempotent(s[1..]);
    }
  }

  /** Lookup is case-insensitive: formats that lower-case alike resolve alike. */
  lemma CaseInsensitive(mode: string, e1: string, e2: string)
    requires Lower(e1) == Lower(e2)
    ensures ArchiveFactory(mode, e1) == ArchiveFactory(mode, e2)
  {
  }

  /** `lower()` leaves a string without upper-case letters unchanged. */
  lemma LowerKeepsLowercase(s: string)
    requires forall i :: 0 <= i < |s| ==> !('A' <= s[i] <= 'Z')
    ensures Lower(s) == s
  {
  }

  /** 'tar.gz' and 'tgz' select the gzip stream mode. */
  lemma TarGzFormats(mode: string)
    ensures ArchiveFactory(mode, "tar.gz") == Success(Resolution(Stages(["tar", "gz"]), mode + "|gz"))
    ensures ArchiveFactory(mode, "tgz") == Success(Resolution(Stages(["tar", "gz"]), mode + "|gz"))
  {
    LowerKeepsLowercase("tar.gz");
    LowerKeepsLowercase("tgz");
  }

  /** 'tar.bz2' and 'tbz2' select the bzip2 stream mode. */
  lemma TarBz2Formats(mode: string)
    ensures ArchiveFactory(mode, "tar.bz2") == Success(Resolution(Stages(["tar", "bz2"]), mode + "|bz2"))
    ensures ArchiveFactory(mode, "tbz2") == Success(Resolution(Stages(["tar", "bz2"]), mode + "|bz2"))
  {
    LowerKeepsLowercase("tar.bz2");
    LowerKeepsLowercase("tbz2");
  }

  /** Plain 'tar', and the compression-only formats, leave the mode unchanged. */
  lemma UnsuffixedFormats(mode: string)
    ensures ArchiveFactory(mode, "tar") == Success(Resolution(Stages(["tar"]), mode))
    ensures ArchiveFactory(mode, "gz") == Success(Resolution(Stages(["gz"]), mode))
    ensures ArchiveFactory(mode, "bz2") == Success(Resolution(Stages(["bz2"]), mode))
  {
    LowerKeepsLowercase("tar");
    LowerKeepsLowercase("gz");
    LowerKeepsLowercase("bz2");
    assert mode + "" == mode;
  }

  /** 'zip' is found, but as a plain string its `'tar' in chain` test is false: the mode is unchanged. */
  lemma ZipLeavesModeUnchanged(mode: string)
    ensures ArchiveFactory(mode, "ZIP") == Success(Resolution(Text("zip"), mode))
  {
    var l := Lower("ZIP");
    assert l[0] == 'z' && l[1] == 'i' && l[2] == 'p';
    assert l == "zip";
    assert mode + "" == mode;
  }

  /** An unregistered format fails, and the error names it lower-cased. */
  lemma UnknownFormatFails(mode: string)
    ensures ArchiveFactory(mode, "RAR") == Failure("undiscernible archive format 'rar'")
  {
    var l := Lower("RAR");
    assert l[0] == 'r' && l[1] == 'a' && l[2] == 'r';
    assert l == "rar";
    assert "rar" !in ArchiveMap;
    assert FormatError("rar") == "undiscernible archive format 'rar'";
    assert ArchiveFactory(mode, "RAR") == Failure(FormatError(l));
  }

  /** For "tar.gz" the written code returns nothing, where the stream mode "r|gz" was computed. */
  lemma AsWrittenDropsResolution()
    ensures ArchiveFactoryAsWritten("r", "tar.gz") == Success(())
    ensures ArchiveFactory("r", "tar.gz") == Success(Resolution(Stages(["tar", "gz"]), "r|gz"))
  {
    TarGzFormats("r");
    LowerKeepsLowercase("tar.gz");
    assert "tar.gz" in ArchiveMap;
    assert "r" + "|gz" == "r|gz";
  }
}
