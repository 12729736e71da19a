/** The ingestion script (scripts/ingest.js): the metadata sanitiser that
    flattens a page's metadata into primitive-valued properties, and the
    run that checks the collection, lists the PDF directory, loads each
    file, chunks, sanitises and hands the chunks to the vector store. */
module Ingest {
  import opened Strings
  import opened JsValues
  import opened Optional
  import opened Seqs

  // ---------------------------------------------------------------------
  // Metadata sanitising

  /** The writes one nested object or array makes to `clean`: each
      primitive entry under `<key>_<nestedKey>`, in entry order. */
  function NestedWrites(key: string, nested: Entries): Entries
  {
    if nested == [] then []
    else
      NestedWrites(key, nested[..|nested| - 1]) + NestedWrite(key, nested[|nested| - 1])
  }

  function NestedWrite(key: string, entry: (string, Value)): Entries
  {
    if IsPrimitive(entry.1) then [(key + "_" + entry.0, entry.1)] else []
  }

  /** The writes one top-level property makes to `clean`. */
  function EntryWrites(key: string, value: Value): Entries
  {
    if IsPrimitive(value) then [(key, value)]
    else if IsNullish(value) then []
    else NestedWrites(key, EntriesOf(value))
  }

  /** All writes the sanitiser makes, in the order it makes them. */
  function Writes(metadata: Entries): Entries
  {
    FlatMap(metadata, EntryWritesOf)
  }

  function EntryWritesOf(entry: (string, Value)): Entries
  {
    EntryWrites(entry.0, entry.1)
  }

  /** Performing a sequence of property writes on an object. */
  function Apply(clean: Entries, writes: Entries): Entries
  {
    if writes == [] then clean
    else
      Set(Apply(clean, writes[..|writes| - 1]), writes[|writes| - 1].0, writes[|writes| - 1].1)
  }

  /** The object `sanitizeMetadata` returns for `metadata`. */
  function Sanitized(metadata: Entries): Entries
  {
    Apply([], Writes(metadata))
  }

  /** What a vector-store record accepts: distinct property names, each
      holding a string, a number or a boolean. */
  predicate Flat(e: Entries) {
    DistinctKeys(e) && forall i :: 0 <= i < |e| ==> IsPrimitive(e[i].1)
  }

  /** The value of the last write to `key`, if any. */
  function LastWrite(writes: Entries, key: string): Option<Value>
  {
    if writes == [] then None
    else if writes[|writes| - 1].0 == key then Some(writes[|writes| - 1].1)
    else LastWrite(writes[..|writes| - 1], key)
  }

  /** `sanitizeMetadata`: builds `clean` property by property. */
  method SanitizeMetadata(metadata: Entries) returns (clean: Entries)
    ensures clean == Sanitized(metadata)
    ensures Flat(clean)
  {
    clean := [];
    for i := 0 to |metadata|
      invariant clean == Apply([], Writes(metadata[..i]))
    {
      var (key, value) := metadata[i];
      ghost var before := clean;
      if IsPrimitive(value) {
        clean := Set(clean, key, value);
      } else if IsNullish(value) {
        // null and undefined are skipped
      } else {
        var nested := EntriesOf(value);
        for j := 0 to |nested|
          invariant clean == Apply(before, NestedWrites(key, nested[..j]))
        {
          var (nestedKey, nestedValue) := nested[j];
          if IsPrimitive(nestedValue) {
            clean := Set(clean, key + "_" + nestedKey, nestedValue);
          }
          NestedStep(before, key, nested, j);
        }
        assert nested[..|nested|] == nested;
      }
      SanitizeStep(metadata, i);
    }
    assert metadata[..|metadata|] == metadata;
    SanitizedFlat(metadata);
  }

  /** One step of the inner loop: writing entry `j` of a nested object. */
  lemma NestedStep(before: Entries, key: string, nested: Entries, j: nat)
    requires j < |nested|
    ensures Apply(before, NestedWrites(key, nested[..j + 1]))
         == Apply(Apply(before, NestedWrites(key, nested[..j])), NestedWrite(key, nested[j]))
  {
    assert nested[..j + 1][..j] == nested[..j];
    ApplyAppend(before, NestedWrites(key, nested[..j]), NestedWrite(key, nested[j]));
  }

  /** One step of the outer loop: all writes of top-level entry `i`. */
  lemma SanitizeStep(metadata: Entries, i: nat)
    requires i < |metadata|
    ensures Apply([], Writes(metadata[..i + 1]))
         == Apply(Apply([], Writes(metadata[..i])), EntryWrites(metadata[i].0, metadata[i].1))
  {
    assert metadata[..i + 1][..i] == metadata[..i];
    ApplyAppend([], Writes(metadata[..i]), EntryWrites(metadata[i].0, metadata[i].1));
  }

  lemma {:induction false} ApplyAppend(clean: Entries, w1: Entries, w2: Entries)
    ensures Apply(clean, w1 + w2) == Apply(Apply(clean, w1), w2)
    decreases |w2|
  {
    if w2 == [] {
      assert w1 + w2 == w1;
    } else {
      assert (w1 + w2)[..|w1 + w2| - 1] == w1 + w2[..|w2| - 1];
      ApplyAppend(clean, w1, w2[..|w2| - 1]);
    }
  }

  lemma {:induction false} NestedWritesAppend(key: string, a: Entries, b: Entries)
    ensures NestedWrites(key, a + b) == NestedWrites(key, a) + NestedWrites(key, b)
    decreases |b|
  {
    if b == [] {
      assert a + b == a;
    } else {
      assert (a + b)[..|a + b| - 1] == a + b[..|b| - 1];
      NestedWritesAppend(key, a, b[..|b| - 1]);
    }
  }

  lemma WritesSnoc(m: Entries, x: (string, Value))
    ensures Writes(m + [x]) == Writes(m) + EntryWrites(x.0, x.1)
  {
    var mx := m + [x];
    assert mx[..|mx| - 1] == m && mx[|mx| - 1] == x;
  }

  lemma WritesAppend(a: Entries, b: Entries)
    ensures Writes(a + b) == Writes(a) + Writes(b)
  {
    FlatMapAppend(a, b, EntryWritesOf);
  }

  lemma {:induction false} LastWriteAppend(w1: Entries, w2: Entries, key: string)
    ensures LastWrite(w1 + w2, key) == if LastWrite(w2, key).Some? then LastWrite(w2, key) else LastWrite(w1, key)
    decreases |w2|
  {
    if w2 == [] {
      assert w1 + w2 == w1;
    } else {
      assert (w1 + w2)[..|w1 + w2| - 1] == w1 + w2[..|w2| - 1];
      LastWriteAppend(w1, w2[..|w2| - 1], key);
    }
  }

  /** Every write the sanitiser makes carries a string, number or boolean. */
  lemma {:induction false} WritesArePrimitive(metadata: Entries)
    ensures forall i :: 0 <= i < |Writes(metadata)| ==> IsPrimitive(Writes(metadata)[i].1)
    decreases |metadata|
  {
    if metadata != [] {
      var (key, value) := metadata[|metadata| - 1];
      assert Writes(metadata) == Writes(metadata[..|metadata| - 1]) + EntryWrites(key, value);
      WritesArePrimitive(metadata[..|metadata| - 1]);
      if !IsPrimitive(value) && !IsNullish(value) {
        NestedWritesArePrimitive(key, EntriesOf(value));
      }
    }
  }

  lemma {:induction false} NestedWritesArePrimitive(key: string, nested: Entries)
    ensures forall i :: 0 <= i < |NestedWrites(key, nested)| ==> IsPrimitive(NestedWrites(key, nested)[i].1)
    decreases |nested|
  {
    if nested != [] {
      NestedWritesArePrimitive(key, nested[..|nested| - 1]);
    }
  }

  lemma {:induction false} ApplyKeepsFlat(clean: Entries, writes: Entries)
    requires Flat(clean)
    requires forall i :: 0 <= i < |writes| ==> IsPrimitive(writes[i].1)
    ensures Flat(Apply(clean, writes))
    decreases |writes|
  {
    if writes != [] {
      var (key, value) := writes[|writes| - 1];
      ApplyKeepsFlat(clean, writes[..|writes| - 1]);
      SetKeepsKeysDistinct(Apply(clean, writes[..|writes| - 1]), key, value);
    }
  }

  /** No null, undefined, object or array survives sanitising, and no
      property name appears twice. */
  lemma SanitizedFlat(metadata: Entries)
    ensures Flat(Sanitized(metadata))
  {
    WritesArePrimitive(metadata);
    ApplyKeepsFlat([], Writes(metadata));
  }

  /** Reading a property after a sequence of writes: the last write to it
      wins, and a property never written reads as before. */
  lemma {:induction false} GetAfterApply(clean: Entries, writes: Entries, key: string)
    ensures Get(Apply(clean, writes), key)
         == if LastWrite(writes, key).Some? then LastWrite(writes, key).value else Get(clean, key)
    decreases |writes|
  {
    if writes != [] {
      var (k, v) := writes[|writes| - 1];
      GetAfterApply(clean, writes[..|writes| - 1], key);
      GetAfterSet(Apply(clean, writes[..|writes| - 1]), k, v, key);
    }
  }

  /** A sanitised property holds the value of the last write to it; a name
      never written reads as undefined. */
  lemma SanitizedGet(metadata: Entries, key: string)
    ensures Get(Sanitized(metadata), key)
         == if LastWrite(Writes(metadata), key).Some? then LastWrite(Writes(metadata), key).value else Undef
  {
    GetAfterApply([], Writes(metadata), key);
  }

  /** A top-level string, number or boolean is copied unchanged under its
      own name, unless a later property writes the same name. */
  lemma TopLevelPrimitiveCopied(metadata: Entries, i: nat)
    requires i < |metadata| && IsPrimitive(metadata[i].1)
    requires LastWrite(Writes(metadata[i + 1..]), metadata[i].0).None?
    ensures Get(Sanitized(metadata), metadata[i].0) == metadata[i].1
  {
    var (key, value) := metadata[i];
    WritesAt(metadata, i);
    LastWriteAppend(Writes(metadata[..i]) + [(key, value)], Writes(metadata[i + 1..]), key);
    SanitizedGet(metadata, key);
  }

  /** A null or undefined top-level property contributes nothing: the
      result is the same as without it. */
  lemma NullishDropped(metadata: Entries, i: nat)
    requires i < |metadata| && IsNullish(metadata[i].1)
    ensures Sanitized(metadata) == Sanitized(metadata[..i] + metadata[i + 1..])
  {
    var before, x, after := metadata[..i], metadata[i], metadata[i + 1..];
    var upto := before + [x];
    assert metadata == upto + after;
    assert upto[..|upto| - 1] == before && upto[|upto| - 1] == x;
    assert EntryWrites(x.0, x.1) == [];
    assert Writes(upto) == Writes(before);
    WritesAppend(upto, after);
    WritesAppend(before, after);
  }

  /** A primitive entry `nestedKey` of an object or array under `key`
      comes out as `<key>_<nestedKey>`, unless a later write takes that
      name. */
  lemma NestedPrimitiveFlattened(metadata: Entries, i: nat, j: nat)
    requires i < |metadata|
    requires metadata[i].1.Obj? || metadata[i].1.Arr?
    requires j < |EntriesOf(metadata[i].1)| && IsPrimitive(EntriesOf(metadata[i].1)[j].1)
    requires LastWrite(NestedWrites(metadata[i].0, EntriesOf(metadata[i].1)[j + 1..])
                       + Writes(metadata[i + 1..]),
                       metadata[i].0 + "_" + EntriesOf(metadata[i].1)[j].0).None?
    ensures Get(Sanitized(metadata), metadata[i].0 + "_" + EntriesOf(metadata[i].1)[j].0)
         == EntriesOf(metadata[i].1)[j].1
  {
    var (key, value) := metadata[i];
    var nested := EntriesOf(value);
    var name := key + "_" + nested[j].0;
    NestedDecompose(metadata, i, j);
    LastWriteBefore(Writes(metadata[..i]) + NestedWrites(key, nested[..j]), name, nested[j].1,
                    NestedWrites(key, nested[j + 1..]) + Writes(metadata[i + 1..]));
    SanitizedGet(metadata, name);
  }

  lemma NestedDecompose(metadata: Entries, i: nat, j: nat)
    requires i < |metadata|
    requires metadata[i].1.Obj? || metadata[i].1.Arr?
    requires j < |EntriesOf(metadata[i].1)| && IsPrimitive(EntriesOf(metadata[i].1)[j].1)
    ensures
      var (key, nested) := (metadata[i].0, EntriesOf(metadata[i].1));
      Writes(metadata)
      == (Writes(metadata[..i]) + NestedWrites(key, nested[..j]))
         + [(key + "_" + nested[j].0, nested[j].1)]
         + (NestedWrites(key, nested[j + 1..]) + Writes(metadata[i + 1..]))
  {
    var (key, value) := metadata[i];
    var nested := EntriesOf(value);
    var after := NestedWrites(key, nested[j + 1..]);
    var later := Writes(metadata[i + 1..]);
    NestedWritesAt(key, nested, j);
    WritesAt(metadata, i);
    var here := [(key + "_" + nested[j].0, nested[j].1)];
    assert NestedWrite(key, nested[j]) == here;
    assert EntryWrites(key, value) == NestedWrites(key, nested);
    Regroup(Writes(metadata[..i]), NestedWrites(key, nested[..j]), here, after, later);
  }

  lemma Regroup(a: Entries, b: Entries, c: Entries, d: Entries, e: Entries)
    ensures a + (b + c + d) + e == (a + b) + c + (d + e)
  {
  }

  /** A write followed by none to the same name is the last one. */
  lemma LastWriteBefore(w: Entries, name: string, v: Value, rest: Entries)
    requires LastWrite(rest, name).None?
    ensures LastWrite(w + [(name, v)] + rest, name) == Some(v)
  {
    LastWriteAppend(w + [(name, v)], rest, name);
    assert (w + [(name, v)])[..|w|] == w;
  }


  /** The writes of `metadata` split around top-level entry `i`. */
  lemma WritesAt(metadata: Entries, i: nat)
    requires i < |metadata|
    ensures Writes(metadata)
         == Writes(metadata[..i]) + EntryWrites(metadata[i].0, metadata[i].1) + Writes(metadata[i + 1..])
  {
    var upto := metadata[..i + 1];
    assert metadata == upto + metadata[i + 1..];
    assert upto[..|upto| - 1] == metadata[..i] && upto[|upto| - 1] == metadata[i];
    WritesAppend(upto, metadata[i + 1..]);
  }

  /** The writes of a nested object split around its entry `j`. */
  lemma NestedWritesAt(key: string, nested: Entries, j: nat)
    requires j < |nested|
    ensures NestedWrites(key, nested)
         == NestedWrites(key, nested[..j]) + NestedWrite(key, nested[j]) + NestedWrites(key, nested[j + 1..])
  {
    var upto := nested[..j + 1];
    assert nested == upto + nested[j + 1..];
    assert upto[..|upto| - 1] == nested[..j] && upto[|upto| - 1] == nested[j];
    NestedWritesAppend(key, upto, nested[j + 1..]);
  }


  /** Array elements come out under `<key>_0`, `<key>_1`, ... */
  lemma ArrayElementFlattened(metadata: Entries, i: nat, j: nat)
    requires i < |metadata| && metadata[i].1.Arr?
    requires j < |metadata[i].1.elems| && IsPrimitive(metadata[i].1.elems[j])
    requires LastWrite(NestedWrites(metadata[i].0, EntriesOf(metadata[i].1)[j + 1..])
                       + Writes(metadata[i + 1..]),
                       metadata[i].0 + "_" + NatToString(j)).None?
    ensures Get(Sanitized(metadata), metadata[i].0 + "_" + NatToString(j)) == metadata[i].1.elems[j]
  {
    NestedPrimitiveFlattened(metadata, i, j);
  }

  /** Which properties one top-level entry writes: a primitive writes its
      own name; an object or array writes `<key>_<nestedKey>` for its
      primitive entries; null and undefined write nothing. */
  lemma EntryWritesKeys(key: string, value: Value, name: string)
    ensures HasKey(EntryWrites(key, value), name) <==>
      (IsPrimitive(value) && name == key)
      || ((value.Obj? || value.Arr?) && NestedNames(key, EntriesOf(value), name))
  {
    if IsPrimitive(value) {
      assert EntryWrites(key, value)[0].0 == key;
    } else if !IsNullish(value) {
      NestedWritesKeys(key, EntriesOf(value), name);
    }
  }

  predicate NestedNames(key: string, nested: Entries, name: string) {
    exists j :: 0 <= j < |nested| && IsPrimitive(nested[j].1) && name == key + "_" + nested[j].0
  }

  lemma {:induction false} NestedWritesKeys(key: string, nested: Entries, name: string)
    ensures HasKey(NestedWrites(key, nested), name) <==> NestedNames(key, nested, name)
    decreases |nested|
  {
    if nested != [] {
      var init := nested[..|nested| - 1];
      NestedWritesKeys(key, init, name);
      var w := NestedWrites(key, nested);
      var wInit := NestedWrites(key, init);
      if HasKey(w, name) {
        var k :| 0 <= k < |w| && w[k].0 == name;
        if k < |wInit| {
          assert wInit[k].0 == name;
          var j :| 0 <= j < |init| && IsPrimitive(init[j].1) && name == key + "_" + init[j].0;
          assert nested[j] == init[j];
        } else {
          assert nested[|nested| - 1].0 == nested[|nested| - 1].0;
        }
      }
      if NestedNames(key, nested, name) {
        var j :| 0 <= j < |nested| && IsPrimitive(nested[j].1) && name == key + "_" + nested[j].0;
        if j < |init| {
          assert init[j] == nested[j];
          var k :| 0 <= k < |wInit| && wInit[k].0 == name;
          assert w[k] == wInit[k];
        } else {
          assert w[|w| - 1].0 == name;
        }
      }
    }
  }

  lemma {:induction false} HasKeyAfterApply(clean: Entries, writes: Entries, name: string)
    ensures HasKey(Apply(clean, writes), name) <==> HasKey(clean, name) || HasKey(writes, name)
    decreases |writes|
  {
    if writes != [] {
      var init, last := writes[..|writes| - 1], writes[|writes| - 1];
      assert writes == init + [last];
      HasKeyAfterApply(clean, init, name);
      HasKeyAfterSet(Apply(clean, init), last.0, last.1, name);
      HasKeyConcat(init, [last], name);
      assert HasKey([last], name) <==> last.0 == name by {
        assert [last][0] == last;
      }
    }
  }


  /** Some top-level entry of `metadata` writes `name`. */
  predicate Emits(metadata: Entries, name: string) {
    exists i :: 0 <= i < |metadata| && HasKey(EntryWrites(metadata[i].0, metadata[i].1), name)
  }

  lemma EmitsSnoc(metadata: Entries, name: string)
    requires metadata != []
    ensures Emits(metadata, name) <==>
      Emits(metadata[..|metadata| - 1], name)
      || HasKey(EntryWrites(metadata[|metadata| - 1].0, metadata[|metadata| - 1].1), name)
  {
    var init, last := metadata[..|metadata| - 1], metadata[|metadata| - 1];
    assert Emits(init, name) ==> Emits(metadata, name) by {
      if Emits(init, name) {
        var i :| 0 <= i < |init| && HasKey(EntryWrites(init[i].0, init[i].1), name);
        assert metadata[i] == init[i];
      }
    }
    assert Emits(metadata, name) ==> Emits(init, name) || HasKey(EntryWrites(last.0, last.1), name) by {
      if Emits(metadata, name) {
        var i :| 0 <= i < |metadata| && HasKey(EntryWrites(metadata[i].0, metadata[i].1), name);
        if i < |init| {
          assert metadata[i] == init[i];
        }
      }
    }
  }

  lemma {:induction false} HasKeyWrites(metadata: Entries, name: string)
    ensures HasKey(Writes(metadata), name) <==> Emits(metadata, name)
    decreases |metadata|
  {
    if metadata != [] {
      var init, last := metadata[..|metadata| - 1], metadata[|metadata| - 1];
      HasKeyWrites(init, name);
      HasKeyConcat(Writes(init), EntryWrites(last.0, last.1), name);
      EmitsSnoc(metadata, name);
    }
  }


  /** Every sanitised property name comes from some top-level property:
      its own name for a primitive, `<key>_<nestedKey>` for a primitive
      entry one level down; and each such name is present. */
  lemma SanitizedKeys(metadata: Entries, name: string)
    ensures HasKey(Sanitized(metadata), name) <==> Emits(metadata, name)
  {
    HasKeyAfterApply([], Writes(metadata), name);
    HasKeyWrites(metadata, name);
  }

  lemma {:induction false} FlatWritesItself(e: Entries)
    requires forall i :: 0 <= i < |e| ==> IsPrimitive(e[i].1)
    ensures Writes(e) == e
    decreases |e|
  {
    if e != [] {
      FlatWritesItself(e[..|e| - 1]);
    }
  }

  lemma {:induction false} ApplyDistinctOnEmpty(e: Entries)
    requires DistinctKeys(e)
    ensures Apply([], e) == e
    decreases |e|
  {
    if e != [] {
      var init := e[..|e| - 1];
      ApplyDistinctOnEmpty(init);
      assert !HasKey(init, e[|e| - 1].0) by {
        forall p | 0 <= p < |init| ensures init[p].0 != e[|e| - 1].0 {
          assert init[p] == e[p];
        }
      }
    }
  }

  /** An object that is already flat is copied verbatim, so sanitising is
      idempotent. */
  lemma FlatIsFixpoint(e: Entries)
    requires Flat(e)
    ensures Sanitized(e) == e
  {
    FlatWritesItself(e);
    ApplyDistinctOnEmpty(e);
  }

  lemma SanitizeIdempotent(metadata: Entries)
    ensures Sanitized(Sanitized(metadata)) == Sanitized(metadata)
  {
    SanitizedFlat(metadata);
    FlatIsFixpoint(Sanitized(metadata));
  }

  // ---------------------------------------------------------------------
  // The ingestion run

  /** A page or a chunk: its text and its metadata object. */
  datatype Doc = Doc(pageContent: string, metadata: Entries)

  /** How a run ends: the process exit code, the files whose load was
      attempted (in order) and, when the vector store was called, the
      chunks handed to it. */
  datatype Outcome = Outcome(exitCode: int, loadsAttempted: seq<string>, handedToStore: Option<seq<Doc>>)

  const PdfSuffix: string := ".pdf"

  predicate IsPdf(f: string) {
    EndsWith(f, PdfSuffix)
  }

  /** `readdirSync(DOCS_DIR).filter((f) => f.endsWith(".pdf"))`. */
  function PdfFiles(listing: seq<string>): (files: seq<string>)
    ensures |files| <= |listing|
    ensures forall f :: f in files <==> f in listing && EndsWith(f, PdfSuffix)
  {
    FilterMembersAll(listing, IsPdf);
    Filter(listing, IsPdf)
  }

  /** The listing order is kept: filtering a concatenation concatenates
      the filtered parts. */
  lemma PdfFilesAppend(a: seq<string>, b: seq<string>)
    ensures PdfFiles(a + b) == PdfFiles(a) + PdfFiles(b)
  {
    FilterAppend(a, b, IsPdf);
  }

  /** The pages of one file after `doc.metadata.source = pdfFile`. */
  function Tagged(docs: seq<Doc>, file: string): seq<Doc>
  {
    seq(|docs|, k requires 0 <= k < |docs| =>
      docs[k].(metadata := Set(docs[k].metadata, "source", Str(file))))
  }

  /** The pages a file contributes: none when its load throws. */
  function FilePages(load: string -> Option<seq<Doc>>, file: string): seq<Doc>
  {
    match load(file)
    case None => []
    case Some(docs) => Tagged(docs, file)
  }

  /** `allDocs` once every file in `files` has been tried, in order. */
  function LoadedPages(files: seq<string>, load: string -> Option<seq<Doc>>): seq<Doc>
  {
    FlatMap(files, (f: string) => FilePages(load, f))
  }

  /** Pages accumulate in file order. */
  lemma LoadedPagesAppend(a: seq<string>, b: seq<string>, load: string -> Option<seq<Doc>>)
    ensures LoadedPages(a + b, load) == LoadedPages(a, load) + LoadedPages(b, load)
  {
    FlatMapAppend(a, b, (f: string) => FilePages(load, f));
  }

  /** A file whose load throws is skipped, and the others still load. */
  lemma FailedLoadSkipped(a: seq<string>, file: string, b: seq<string>, load: string -> Option<seq<Doc>>)
    requires load(file).None?
    ensures LoadedPages(a + [file] + b, load) == LoadedPages(a + b, load)
  {
    LoadedPagesAppend(a + [file], b, load);
    LoadedPagesAppend(a, [file], load);
    LoadedPagesAppend(a, b, load);
    assert [file][..0] == [];
  }

  /** A file that loads contributes all its pages, in their order, between
      the pages of the files before and after it. */
  lemma LoadedFileKept(a: seq<string>, file: string, b: seq<string>, load: string -> Option<seq<Doc>>)
    requires load(file).Some?
    ensures LoadedPages(a + [file] + b, load)
         == LoadedPages(a, load) + Tagged(load(file).value, file) + LoadedPages(b, load)
  {
    LoadedPagesAppend(a + [file], b, load);
    LoadedPagesAppend(a, [file], load);
    assert [file][..0] == [];
  }

  /** Every loaded page carries the name of the file it came from in
      `metadata.source`, and that file's load succeeded. */
  lemma {:induction false} LoadedPagesSource(files: seq<string>, load: string -> Option<seq<Doc>>, k: nat)
    requires k < |LoadedPages(files, load)|
    ensures exists f :: f in files && load(f).Some? && Get(LoadedPages(files, load)[k].metadata, "source") == Str(f)
    decreases |files|
  {
    var init, last := files[..|files| - 1], files[|files| - 1];
    assert files == init + [last];
    LoadedPagesAppend(init, [last], load);
    assert [last][..0] == [];
    assert LoadedPages([last], load) == FilePages(load, last);
    var before := LoadedPages(init, load);
    if k < |before| {
      LoadedPagesSource(init, load, k);
      var f :| f in init && load(f).Some? && Get(before[k].metadata, "source") == Str(f);
      assert f in files;
    } else {
      var d := load(last).value[k - |before|];
      GetAfterSet(d.metadata, "source", Str(last), "source");
      assert LoadedPages(files, load)[k] == Tagged(load(last).value, last)[k - |before|];
    }
  }

  /** Each chunk with its metadata replaced by the sanitised form. */
  function SanitizedChunks(chunks: seq<Doc>): seq<Doc>
  {
    seq(|chunks|, k requires 0 <= k < |chunks| => chunks[k].(metadata := Sanitized(chunks[k].metadata)))
  }

  /** What is stored is the chunker's output, chunk for chunk, with flat
      metadata: no null, undefined, object or array value. */
  lemma SanitizedChunksFlat(chunks: seq<Doc>)
    ensures |SanitizedChunks(chunks)| == |chunks|
    ensures forall k :: 0 <= k < |chunks| ==>
      SanitizedChunks(chunks)[k].pageContent == chunks[k].pageContent
      && Flat(SanitizedChunks(chunks)[k].metadata)
  {
    forall k | 0 <= k < |chunks|
      ensures Flat(SanitizedChunks(chunks)[k].metadata)
    {
      SanitizedFlat(chunks[k].metadata);
    }
  }

  /** Sanitising the stored chunks again changes nothing. */
  lemma SanitizedChunksIdempotent(chunks: seq<Doc>)
    ensures SanitizedChunks(SanitizedChunks(chunks)) == SanitizedChunks(chunks)
  {
    forall k | 0 <= k < |chunks|
      ensures SanitizedChunks(SanitizedChunks(chunks))[k] == SanitizedChunks(chunks)[k]
    {
      SanitizeIdempotent(chunks[k].metadata);
    }
  }

  /** The existing-collection check lets the run go on: the collection
      could not be read, or it holds no record. */
  predicate Proceeds(existingCount: Option<int>) {
    existingCount.None? || existingCount.value <= 0
  }

  /** The run gets as far as loading: the collection check lets it go on,
      the directory exists, it can be listed, and it holds a PDF. */
  predicate Loads(existingCount: Option<int>, dirExists: bool, listing: Option<seq<string>>) {
    Proceeds(existingCount) && dirExists && listing.Some? && PdfFiles(listing.value) != []
  }

  /** `ingestPDFs`. The external calls are inputs: `existingCount` is the
      collection's record count (None when `getCollection` or `count`
      throws), `dirExists` and `listing` describe the documents directory
      (`listing` is None when `readdirSync` throws), `load` is the PDF
      loader (None when it throws), `split` the text splitter (None when
      it throws), `embedOk` whether the embedding probe succeeds and
      `storeOk` whether `Chroma.fromDocuments` succeeds. An exception that
      escapes the run reaches the top-level `catch`, which exits 1. */
  method IngestPDFs(existingCount: Option<int>, dirExists: bool, listing: Option<seq<string>>,
                    load: string -> Option<seq<Doc>>, split: seq<Doc> -> Option<seq<Doc>>,
                    embedOk: bool, storeOk: bool)
    returns (outcome: Outcome)
    ensures !Proceeds(existingCount) ==> outcome == Outcome(0, [], None)
    ensures Proceeds(existingCount) && !dirExists ==> outcome == Outcome(1, [], None)
    ensures Proceeds(existingCount) && dirExists && listing.None? ==> outcome == Outcome(1, [], None)
    ensures Proceeds(existingCount) && dirExists && listing.Some? && PdfFiles(listing.value) == []
            ==> outcome == Outcome(0, [], None)
    ensures Loads(existingCount, dirExists, listing)
            ==> outcome.loadsAttempted == PdfFiles(listing.value)
    ensures Loads(existingCount, dirExists, listing)
            && (split(LoadedPages(PdfFiles(listing.value), load)).None? || !embedOk)
            ==> outcome.exitCode == 1 && outcome.handedToStore.None?
    ensures Loads(existingCount, dirExists, listing)
            && split(LoadedPages(PdfFiles(listing.value), load)).Some? && embedOk
            ==> outcome.exitCode == (if storeOk then 0 else 1)
                && outcome.handedToStore
                   == Some(SanitizedChunks(split(LoadedPages(PdfFiles(listing.value), load)).value))
  {
    // Check if already ingested
    if existingCount.Some? && existingCount.value > 0 {
      return Outcome(0, [], None);
    }

    if !dirExists {
      return Outcome(1, [], None);
    }

    if listing.None? {
      return Outcome(1, [], None);
    }
    var pdfFiles := PdfFiles(listing.value);
    if |pdfFiles| == 0 {
      return Outcome(0, [], None);
    }

    // Load PDFs
    var allDocs: seq<Doc> := [];
    var attempted: seq<string> := [];
    for i := 0 to |pdfFiles|
      invariant attempted == pdfFiles[..i]
      invariant allDocs == LoadedPages(pdfFiles[..i], load)
    {
      var pdfFile := pdfFiles[i];
      attempted := attempted + [pdfFile];
      var loaded := load(pdfFile);
      if loaded.Some? {
        var docs := loaded.value;
        for k := 0 to |docs|
          invariant |docs| == |loaded.value|
          invariant forall m :: 0 <= m < k ==> docs[m] == Tagged(loaded.value, pdfFile)[m]
          invariant forall m :: k <= m < |docs| ==> docs[m] == loaded.value[m]
        {
          docs := docs[k := docs[k].(metadata := Set(docs[k].metadata, "source", Str(pdfFile)))];
        }
        assert docs == Tagged(loaded.value, pdfFile);
        allDocs := allDocs + docs;
      }
      assert pdfFiles[..i + 1][..i] == pdfFiles[..i];
    }
    assert pdfFiles[..|pdfFiles|] == pdfFiles;

    // Split into chunks, then sanitise each chunk's metadata
    var splitResult := split(allDocs);
    if splitResult.None? {
      return Outcome(1, attempted, None);
    }
    var chunks := splitResult.value;
    ghost var raw := chunks;
    for k := 0 to |chunks|
      invariant |chunks| == |raw|
      invariant forall m :: 0 <= m < k ==> chunks[m] == SanitizedChunks(raw)[m]
      invariant forall m :: k <= m < |chunks| ==> chunks[m] == raw[m]
    {
      var clean := SanitizeMetadata(chunks[k].metadata);
      chunks := chunks[k := chunks[k].(metadata := clean)];
    }
    assert chunks == SanitizedChunks(raw);

    // Probe the embedding service
    if !embedOk {
      return Outcome(1, attempted, None);
    }

    // Store in the vector store; a failure here reaches the top-level catch
    return Outcome(if storeOk then 0 else 1, attempted, Some(chunks));
  }
}
