/**
 * Loading a token document: the recursive object merge used to combine the
 * files of an archive, the fold over the archive's entries, and the dispatch
 * on the uploaded file's extension.  Reading files, unzipping and
 * `JSON.parse` are oracles: their results are parameters.
 */
module FileUtils {
  import opened Wrappers
  import opened Strings
  import opened Json

  /** A value that `deepMerge` merges recursively: truthy, `typeof 'object'` and not an array. */
  predicate PlainObject(v: Option<Json>) {
    v.Some? && v.value.JObj?
  }

  /**
   * `deepMerge(target, source)`: a copy of `target` into which every member
   * of `source` is assigned in order; a member that is a plain object on both
   * sides is merged recursively, anything else is taken from `source`.
   */
  function DeepMerge(target: Fields, source: Fields): (r: Fields)
    decreases FieldsSize(source), 1
  {
    MergeMembers(target, target, source)
  }

  /** The loop of `deepMerge`: assigns the members of `source` to `acc`, reading `target`. */
  function MergeMembers(target: Fields, acc: Fields, source: Fields): (r: Fields)
    decreases FieldsSize(source), 0
  {
    if source == [] then acc
    else
      var m := source[0];
      assert FieldsSize(source) == Size(m.value) + FieldsSize(source[1..]);
      var t := Get(target, m.key);
      var v := if PlainObject(t) && m.value.JObj? then JObj(DeepMerge(t.value.fields, m.value.fields)) else m.value;
      MergeMembers(target, Put(acc, m.key, v), source[1..])
  }

  /** The merge assigns exactly the members of `source` on top of `acc`. */
  lemma {:induction false} MergeMembersKeys(target: Fields, acc: Fields, source: Fields)
    ensures Keys(MergeMembers(target, acc, source)) == Keys(acc) + Keys(source)
    decreases |source|
  {
    if source != [] {
      KeysCons(source[0], source[1..]);
      assert source == [source[0]] + source[1..];
      var m := source[0];
      var t := Get(target, m.key);
      var v := if PlainObject(t) && m.value.JObj? then JObj(DeepMerge(t.value.fields, m.value.fields)) else m.value;
      MergeMembersKeys(target, Put(acc, m.key, v), source[1..]);
    }
  }

  /** The merged object has exactly the member names of `target` and of `source`. */
  lemma DeepMergeKeys(target: Fields, source: Fields)
    ensures Keys(DeepMerge(target, source)) == Keys(target) + Keys(source)
  {
    MergeMembersKeys(target, target, source);
  }

  /** Members `source` does not mention are left as they are in `acc`. */
  lemma {:induction false} MergeMembersUntouched(target: Fields, acc: Fields, source: Fields, k: string)
    requires k !in Keys(source)
    ensures Get(MergeMembers(target, acc, source), k) == Get(acc, k)
    decreases |source|
  {
    if source != [] {
      KeysCons(source[0], source[1..]);
      assert source == [source[0]] + source[1..];
      var m := source[0];
      var t := Get(target, m.key);
      var v := if PlainObject(t) && m.value.JObj? then JObj(DeepMerge(t.value.fields, m.value.fields)) else m.value;
      MergeMembersUntouched(target, Put(acc, m.key, v), source[1..], k);
      PutGet(acc, m.key, v, k);
    }
  }

  /** A member present only in `target` keeps `target`'s value. */
  lemma TargetOnlyKept(target: Fields, source: Fields, k: string)
    requires k !in Keys(source)
    ensures Get(DeepMerge(target, source), k) == Get(target, k)
  {
    MergeMembersUntouched(target, target, source, k);
  }

  /** The value a member of `source` ends up with: the recursive merge or `source`'s own value. */
  lemma {:induction false} MergeMembersAssigned(target: Fields, acc: Fields, source: Fields, i: int)
    requires DistinctKeys(source) && 0 <= i < |source|
    ensures var k := source[i].key;
            var t := Get(target, k);
            var s := source[i].value;
            Get(MergeMembers(target, acc, source), k)
              == Some(if PlainObject(t) && s.JObj? then JObj(DeepMerge(t.value.fields, s.fields)) else s)
    decreases |source|
  {
    var m := source[0];
    var t := Get(target, m.key);
    var v := if PlainObject(t) && m.value.JObj? then JObj(DeepMerge(t.value.fields, m.value.fields)) else m.value;
    if i == 0 {
      assert m.key !in Keys(source[1..]);
      MergeMembersUntouched(target, Put(acc, m.key, v), source[1..], m.key);
      PutGet(acc, m.key, v, m.key);
    } else {
      MergeMembersAssigned(target, Put(acc, m.key, v), source[1..], i - 1);
    }
  }

  /** A member that is a plain object in both `target` and `source` is their recursive merge. */
  lemma ObjectsMergeRecursively(target: Fields, source: Fields, k: string, tf: Fields, sf: Fields)
    requires DistinctKeys(source)
    requires Get(target, k) == Some(JObj(tf)) && Get(source, k) == Some(JObj(sf))
    ensures Get(DeepMerge(target, source), k) == Some(JObj(DeepMerge(tf, sf)))
  {
    var i :| 0 <= i < |source| && source[i].key == k;
    GetAt(source, i);
    MergeMembersAssigned(target, target, source, i);
  }

  /**
   * In every other case `source` wins: `null`, `0`, `""`, `false`, arrays and
   * any value facing a non-object replace what `target` had; arrays are never
   * concatenated.
   */
  lemma SourceWins(target: Fields, source: Fields, k: string, s: Json)
    requires DistinctKeys(source)
    requires Get(source, k) == Some(s)
    requires !(PlainObject(Get(target, k)) && s.JObj?)
    ensures Get(DeepMerge(target, source), k) == Some(s)
  {
    var i :| 0 <= i < |source| && source[i].key == k;
    GetAt(source, i);
    MergeMembersAssigned(target, target, source, i);
  }

  /** The spread copy comes first: `acc`'s names keep their positions at the front. */
  lemma {:induction false} MergeMembersPrefix(target: Fields, acc: Fields, source: Fields)
    ensures var r := MergeMembers(target, acc, source);
            |acc| <= |r| && KeyList(r)[..|acc|] == KeyList(acc)
    decreases |source|
  {
    if source != [] {
      var m := source[0];
      var t := Get(target, m.key);
      var v := if PlainObject(t) && m.value.JObj? then JObj(DeepMerge(t.value.fields, m.value.fields)) else m.value;
      var acc' := Put(acc, m.key, v);
      MergeMembersPrefix(target, acc', source[1..]);
      if m.key in Keys(acc) {
        PutKeyList(acc, m.key, v);
      } else {
        assert KeyList(acc')[..|acc|] == KeyList(acc);
      }
    }
  }

  /** `target`'s members keep their enumeration order at the front of the result. */
  lemma TargetOrderKept(target: Fields, source: Fields)
    ensures var r := DeepMerge(target, source);
            |target| <= |r| && KeyList(r)[..|target|] == KeyList(target)
  {
    MergeMembersPrefix(target, target, source);
  }

  /** No merge creates duplicate member names. */
  lemma {:induction false} MergeMembersDistinct(target: Fields, acc: Fields, source: Fields)
    requires DistinctKeys(acc)
    ensures DistinctKeys(MergeMembers(target, acc, source))
    decreases |source|
  {
    if source != [] {
      var m := source[0];
      var t := Get(target, m.key);
      var v := if PlainObject(t) && m.value.JObj? then JObj(DeepMerge(t.value.fields, m.value.fields)) else m.value;
      PutDistinct(acc, m.key, v);
      MergeMembersDistinct(target, Put(acc, m.key, v), source[1..]);
    }
  }

  /** With nothing to merge against, each member of `source` is assigned as it is. */
  lemma MergeIntoEmptyStep(acc: Fields, source: Fields)
    requires source != []
    ensures MergeMembers([], acc, source) == MergeMembers([], Put(acc, source[0].key, source[0].value), source[1..])
  {
  }

  lemma SnocConcat(a: Fields, m: Member, b: Fields)
    ensures (a + [m]) + b == a + ([m] + b)
  {
  }

  /** Assigning fresh, distinct names one by one appends them in order. */
  lemma {:induction false} MergeMembersFresh(acc: Fields, source: Fields)
    requires DistinctKeys(source)
    requires Keys(acc) !! Keys(source)
    ensures MergeMembers([], acc, source) == acc + source
    decreases |source|
  {
    if source != [] {
      var m := source[0];
      KeysTail(source);
      DistinctTail(source);
      MergeIntoEmptyStep(acc, source);
      var acc' := Put(acc, m.key, m.value);
      assert acc' == acc + [m];
      MergeMembersFresh(acc', source[1..]);
      SnocConcat(acc, m, source[1..]);
      assert [m] + source[1..] == source;
    }
  }

  /** `deepMerge(t, {})` is a copy of `t` and `deepMerge({}, s)` a copy of `s`. */
  lemma MergeIdentity(t: Fields, s: Fields)
    requires DistinctKeys(s)
    ensures DeepMerge(t, []) == t
    ensures DeepMerge([], s) == s
  {
    MergeMembersFresh([], s);
  }
}

module ArchiveLoading {
  import opened Wrappers
  import opened Strings
  import opened Json
  import opened FileUtils

  /** The failures `processTokenFile` can raise. */
  datatype LoadError =
    | ParseError          // `JSON.parse` rejected a single `.json` upload
    | ArchiveError        // JSZip could not open the archive or inflate one of its `.json` entries
    | UnsupportedFormat   // "Unsupported file format"

  /** One archive entry: its name and its text, `None` when inflating it fails. */
  datatype ZipEntry = ZipEntry(name: string, content: Option<string>)

  /** An uploaded file: its name, its text, and its entries when it opens as a zip archive. */
  datatype Upload = Upload(name: string, text: string, archive: Option<seq<ZipEntry>>)

  /** The entries `processTokenFile` reads: those whose names end in `.json`. */
  predicate IsJsonName(name: string) {
    EndsWith(name, ".json")
  }

  /** One turn of the archive loop: parse the entry and merge it, skipping parse failures. */
  function MergeEntry(acc: Fields, e: ZipEntry, parse: string -> Option<Json>): Result<Fields, LoadError> {
    if !IsJsonName(e.name) then Success(acc)
    else if e.content.None? then Failure(ArchiveError)
    else
      match parse(e.content.value)
      case None => Success(acc)
      case Some(doc) => Success(DeepMerge(acc, ForInEntries(doc)))
  }

  /** The archive loop over the entries in enumeration order, starting from `{}`. */
  function MergeArchive(entries: seq<ZipEntry>, parse: string -> Option<Json>): (r: Result<Fields, LoadError>)
    ensures r.Failure? ==> r.error == ArchiveError
    decreases |entries|
  {
    if entries == [] then Success([])
    else
      match MergeArchive(entries[..|entries| - 1], parse)
      case Failure(e) => Failure(e)
      case Success(acc) => MergeEntry(acc, entries[|entries| - 1], parse)
  }

  /** The `.json` entries of the archive that inflate and parse, in enumeration order. */
  function ParsedDocuments(entries: seq<ZipEntry>, parse: string -> Option<Json>): seq<Json>
    decreases |entries|
  {
    if entries == [] then []
    else
      var e := entries[|entries| - 1];
      var earlier := ParsedDocuments(entries[..|entries| - 1], parse);
      if IsJsonName(e.name) && e.content.Some? && parse(e.content.value).Some?
      then earlier + [parse(e.content.value).value]
      else earlier
  }

  /** Every `.json` entry of the archive can be inflated. */
  predicate Inflatable(entries: seq<ZipEntry>) {
    forall i :: 0 <= i < |entries| && IsJsonName(entries[i].name) ==> entries[i].content.Some?
  }

  /** The left fold of `deepMerge` from `{}` over a list of parsed documents. */
  function FoldMerge(docs: seq<Json>): Fields
    decreases |docs|
  {
    if docs == [] then [] else DeepMerge(FoldMerge(docs[..|docs| - 1]), ForInEntries(docs[|docs| - 1]))
  }

  /**
   * The archive result is the left fold of `deepMerge` over the `.json`
   * entries that parse, in enumeration order; entries that fail to parse are
   * skipped, and one that cannot be inflated fails the whole load.
   */
  lemma {:induction false} ArchiveIsFold(entries: seq<ZipEntry>, parse: string -> Option<Json>)
    ensures Inflatable(entries) ==> MergeArchive(entries, parse) == Success(FoldMerge(ParsedDocuments(entries, parse)))
    ensures !Inflatable(entries) ==> MergeArchive(entries, parse) == Failure(ArchiveError)
    decreases |entries|
  {
    if entries != [] {
      var init := entries[..|entries| - 1];
      var e := entries[|entries| - 1];
      ArchiveIsFold(init, parse);
      InflatableSnoc(entries);
      if Inflatable(init) && IsJsonName(e.name) && e.content.Some? && parse(e.content.value).Some? {
        FoldMergeSnoc(ParsedDocuments(init, parse), parse(e.content.value).value);
      }
    }
  }

  /** An archive is inflatable when its earlier entries are and its last one is, if it is a `.json` entry. */
  lemma InflatableSnoc(entries: seq<ZipEntry>)
    requires entries != []
    ensures Inflatable(entries) <==>
      Inflatable(entries[..|entries| - 1]) && (IsJsonName(entries[|entries| - 1].name) ==> entries[|entries| - 1].content.Some?)
  {
    var init := entries[..|entries| - 1];
    assert forall i :: 0 <= i < |init| ==> init[i] == entries[i];
  }

  /** Folding one more document merges it into the fold of the earlier ones. */
  lemma FoldMergeSnoc(docs: seq<Json>, d: Json)
    ensures FoldMerge(docs + [d]) == DeepMerge(FoldMerge(docs), ForInEntries(d))
  {
    var ds := docs + [d];
    assert ds[..|ds| - 1] == docs;
  }

  /** An archive without a single parseable `.json` entry yields `{}`, not an error. */
  lemma EmptyArchiveYieldsEmptyObject(entries: seq<ZipEntry>, parse: string -> Option<Json>)
    requires Inflatable(entries)
    requires ParsedDocuments(entries, parse) == []
    ensures MergeArchive(entries, parse) == Success([])
  {
    ArchiveIsFold(entries, parse);
  }

  /** The names appearing at the top level of any of the documents. */
  function AllKeys(docs: seq<Json>): set<string>
    decreases |docs|
  {
    if docs == [] then {} else AllKeys(docs[..|docs| - 1]) + Keys(ForInEntries(docs[|docs| - 1]))
  }

  /** The merged object has exactly the top-level names of the merged documents. */
  lemma {:induction false} FoldMergeKeys(docs: seq<Json>)
    ensures Keys(FoldMerge(docs)) == AllKeys(docs)
    decreases |docs|
  {
    if docs != [] {
      FoldMergeKeys(docs[..|docs| - 1]);
      DeepMergeKeys(FoldMerge(docs[..|docs| - 1]), ForInEntries(docs[|docs| - 1]));
    }
  }

  /** An archive with one parseable `.json` object yields that object. */
  lemma SingleDocumentArchive(name: string, text: string, parse: string -> Option<Json>, fs: Fields)
    requires IsJsonName(name) && parse(text) == Some(JObj(fs)) && DistinctKeys(fs)
    ensures MergeArchive([ZipEntry(name, Some(text))], parse) == Success(fs)
  {
    var entries := [ZipEntry(name, Some(text))];
    assert entries[..0] == [];
    MergeIdentity([], fs);
  }

  /**
   * `processTokenFile`: a `.json` upload is parsed as it is; a `.zip` upload
   * is merged entry by entry into one object; any other name is rejected.
   */
  function ProcessTokenFile(file: Upload, parse: string -> Option<Json>): (r: Result<Json, LoadError>)
    ensures r == Failure(UnsupportedFormat) <==> !IsJsonName(file.name) && !EndsWith(file.name, ".zip")
    ensures IsJsonName(file.name) ==> (r.Success? <==> parse(file.text).Some?)
    ensures IsJsonName(file.name) && r.Success? ==> r.value == parse(file.text).value
    ensures !IsJsonName(file.name) && r.Success? ==> r.value.JObj?
    ensures !IsJsonName(file.name) && EndsWith(file.name, ".zip") && file.archive.None? ==> r == Failure(ArchiveError)
  {
    if IsJsonName(file.name) then
      match parse(file.text)
      case None => Failure(ParseError)
      case Some(doc) => Success(doc)
    else if EndsWith(file.name, ".zip") then
      match file.archive
      case None => Failure(ArchiveError)
      case Some(entries) =>
        match MergeArchive(entries, parse)
        case Failure(e) => Failure(e)
        case Success(fs) => Success(JObj(fs))
    else Failure(UnsupportedFormat)
  }

  /** A readable archive whose `.json` entries all inflate never fails to load. */
  lemma ZipNeverFailsOnParseErrors(file: Upload, parse: string -> Option<Json>)
    requires !IsJsonName(file.name) && EndsWith(file.name, ".zip")
    requires file.archive.Some? && Inflatable(file.archive.value)
    ensures ProcessTokenFile(file, parse) == Success(JObj(FoldMerge(ParsedDocuments(file.archive.value, parse))))
  {
    ArchiveIsFold(file.archive.value, parse);
  }
}
