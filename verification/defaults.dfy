/**
 * Worker configuration defaults (src/transfer.py, `TransferWorker.get_defaults`
 * and the attribute loop of `TransferWorker.__init__`).
 *
 * The method resolution order is given explicitly, most-derived class first,
 * as the list of what `getattr(cls, "Defaults", {})` returns for each class:
 * the class's own dictionary, else one it inherits, else an empty map. In a
 * single-inheritance hierarchy an inherited dictionary repeats one already in
 * the list, so the fold comes out the same either way.
 */
module Defaults {

  /** The attribute values the workers' `Defaults` dictionaries hold. */
  datatype Value = IntVal(i: int) | StrVal(s: string) | NoneVal

  type Dict = map<string, Value>

  /** `TransferWorker.Defaults`: the base chunk size is 64 KiB. */
  const TransferWorkerDefaults: Dict := map["bufsize" := IntVal(65536)]
  const UriSourceDefaults: Dict := map["uri" := NoneVal]
  const TarArchiveDefaults: Dict := map["manifest" := NoneVal]
  const TarExtractDefaults: Dict := map["path" := NoneVal, "mode" := StrVal("r")]
  const FileReaderDefaults: Dict := map["path" := NoneVal, "mode" := StrVal("rb")]
  const FileWriterDefaults: Dict := map["path" := NoneVal, "mode" := StrVal("wb")]

  /**
   * The defaults `get_defaults` builds: the dictionaries folded from the base
   * class to the most-derived one, a later dictionary overriding an earlier one.
   */
  function MergeDefaults(mro: seq<Dict>): Dict
  {
    if mro == [] then map[] else MergeDefaults(mro[1..]) + mro[0]
  }

  /** Index of the most-derived class whose dictionary holds `key`. */
  function FirstWith(mro: seq<Dict>, key: string): (i: nat)
    requires exists j :: 0 <= j < |mro| && key in mro[j]
    ensures i < |mro| && key in mro[i]
    ensures forall j :: 0 <= j < i ==> key !in mro[j]
  {
    if key in mro[0] then 0
    else
      assert exists j :: 0 <= j < |mro[1..]| && key in mro[1..][j] by {
        var j :| 0 <= j < |mro| && key in mro[j];
        assert mro[1..][j - 1] == mro[j];
      }
      1 + FirstWith(mro[1..], key)
  }

  /**
   * A key has a default exactly when some class in the MRO declares it, and its
   * value is that of the most-derived class declaring it.
   */
  lemma {:induction false} MergeDefaultsLookup(mro: seq<Dict>, key: string)
    ensures key in MergeDefaults(mro) <==> exists j :: 0 <= j < |mro| && key in mro[j]
    ensures key in MergeDefaults(mro) ==> MergeDefaults(mro)[key] == mro[FirstWith(mro, key)][key]
  {
    if mro != [] {
      MergeDefaultsLookup(mro[1..], key);
      if key !in mro[0] && key in MergeDefaults(mro) {
        var j :| 0 <= j < |mro[1..]| && key in mro[1..][j];
        assert mro[j + 1] == mro[1..][j];
      }
      if exists j :: 0 <= j < |mro| && key in mro[j] {
        var j :| 0 <= j < |mro| && key in mro[j];
        if j > 0 {
          assert mro[1..][j - 1] == mro[j];
        }
      }
    }
  }

  /** A subclass value overrides every base-class value for the same key. */
  lemma SubclassOverrides(mro: seq<Dict>, key: string)
    requires mro != [] && key in mro[0]
    ensures key in MergeDefaults(mro) && MergeDefaults(mro)[key] == mro[0][key]
  {
  }

  /**
   * A worker whose subclasses do not redeclare `bufsize` gets the base class's
   * 64 KiB; `i` is the position of `TransferWorker` in the MRO.
   */
  lemma InheritedBufsize(mro: seq<Dict>, i: nat)
    requires i < |mro| && mro[i] == TransferWorkerDefaults
    requires forall j :: 0 <= j < i ==> "bufsize" !in mro[j]
    ensures "bufsize" in MergeDefaults(mro) && MergeDefaults(mro)["bufsize"] == IntVal(65536)
  {
    MergeDefaultsLookup(mro, "bufsize");
    assert "bufsize" in mro[i];
  }

  /** `get_defaults`: walk the reversed MRO, updating one dictionary. */
  method GetDefaults(mro: seq<Dict>) returns (defaults: Dict)
    ensures defaults == MergeDefaults(mro)
  {
    defaults := map[];
    var i := |mro|;
    while i > 0
      invariant 0 <= i <= |mro|
      invariant defaults == MergeDefaults(mro[i..])
    {
      i := i - 1;
      assert mro[i..][1..] == mro[i + 1..];
      defaults := defaults + mro[i];
    }
    assert mro[0..] == mro;
  }

  /**
   * The attributes `__init__` sets: one per key that has a default, equal to the
   * keyword argument when one is given and to the default otherwise.
   */
  function Configure(defaults: Dict, kw: Dict): (attrs: Dict)
    ensures attrs.Keys == defaults.Keys
    ensures forall k :: k in defaults && k in kw ==> attrs[k] == kw[k]
    ensures forall k :: k in defaults && k !in kw ==> attrs[k] == defaults[k]
  {
    map k | k in defaults :: if k in kw then kw[k] else defaults[k]
  }

  /** Keyword arguments without a default are ignored. */
  lemma ConfigureIgnoresUnknownKeywords(defaults: Dict, kw: Dict, key: string, v: Value)
    requires key !in defaults
    ensures Configure(defaults, kw[key := v]) == Configure(defaults, kw)
  {
  }

  /** A `FileReader` built with only a path reads in 64 KiB chunks in mode "rb". */
  lemma FileReaderAttributes(path: string)
    ensures var mro := [FileReaderDefaults, TransferWorkerDefaults, map[], map[], map[]];
            Configure(MergeDefaults(mro), map["path" := StrVal(path)])
              == map["bufsize" := IntVal(65536), "path" := StrVal(path), "mode" := StrVal("rb")]
  {
    var mro := [FileReaderDefaults, TransferWorkerDefaults, map[], map[], map[]];
    assert mro[1..] == [TransferWorkerDefaults, map[], map[], map[]];
    assert mro[2..] == [map[], map[], map[]];
    assert mro[3..] == [map[], map[]];
    assert mro[4..] == [map[]];
    assert mro[5..] == [];
    var merged := MergeDefaults(mro);
    assert MergeDefaults(mro[4..]) == map[];
    assert MergeDefaults(mro[3..]) == map[];
    assert MergeDefaults(mro[2..]) == map[];
    assert MergeDefaults(mro[1..]) == TransferWorkerDefaults;
    assert merged == map["bufsize" := IntVal(65536), "path" := NoneVal, "mode" := StrVal("rb")];
    var attrs := Configure(merged, map["path" := StrVal(path)]);
    assert attrs.Keys == {"bufsize", "path", "mode"};
  }
}
