/** The department records as the create screen sees them in the flat
    key-value store: the `department_` keyspace, the decoded values, and
    the read-only pipeline `handleSave` runs before it writes (filter the
    keys, fetch, `JSON.parse`, `some`). */
module Departments {
  import opened Optional
  import opened JsText
  import opened NameRule

  /** What `item?.nome?.trim` meets on a decoded value: no name (the value
      is null or not an object, or its `nome` is missing, null or
      undefined, so the optional chain stops and the record is skipped),
      a string, or something else (a number, an object, a boolean), on
      which `.trim()` throws a TypeError. */
  datatype NomeField = Absent | Text(s: string) | NonText

  /** A decoded JSON document stored under a department key. */
  datatype Doc = Doc(id: Option<string>, nome: NomeField)

  /** A stored string, as `JSON.parse` sees it. */
  datatype Stored = Unparsable | Parsed(doc: Doc)

  /** The whole key-value store: key to stored value. */
  type Store = map<string, Stored>

  const Prefix: string := "department_"

  predicate IsDepartmentKey(k: string)
  {
    StartsWith(k, Prefix)
  }

  /** The key a department is written under, `department_<id>`. It lies
      in the department keyspace and gives back the id. */
  function DeptKey(id: string): (k: string)
    ensures IsDepartmentKey(k)
    ensures k[|Prefix|..] == id
  {
    Prefix + id
  }

  /** The record `handleSave` builds: `{id, nome: nome.trim()}`. Its name
      is the raw input with only surrounding whitespace cut (letter case
      kept), has no whitespace at the ends and folds like the raw input. */
  function NewDepartment(id: string, nome: string): (d: Doc)
    ensures d.id == Some(id) && d.nome.Text?
    ensures exists p, q :: AllWhitespace(p) && AllWhitespace(q) && nome == p + d.nome.s + q
    ensures NoEdgeWhitespace(d.nome.s)
    ensures Fold(d.nome.s) == Fold(nome)
  {
    FoldOfTrim(nome);
    TrimShape(nome);
    TrimPadding(nome);
    Doc(Some(id), Text(Trim(nome)))
  }

  /** `keys.filter(key => key.startsWith("department_"))`: keeps exactly
      the department keys, in their order. */
  function DepartmentKeys(keys: seq<string>): (r: seq<string>)
    ensures |r| <= |keys|
    ensures forall k :: k in r <==> k in keys && IsDepartmentKey(k)
  {
    if keys == [] then []
    else if IsDepartmentKey(keys[0]) then [keys[0]] + DepartmentKeys(keys[1..])
    else DepartmentKeys(keys[1..])
  }

  /** What a key missing from the store reads as: `multiGet` gives null,
      `JSON.parse(null)` gives null, and `null?.nome` is undefined. */
  const MissingValue: Stored := Parsed(Doc(None, Absent))

  /** `AsyncStorage.multiGet(keys)`, keeping only the values. */
  function MultiGet(m: Store, keys: seq<string>): seq<Stored>
  {
    seq(|keys|, i requires 0 <= i < |keys| => if keys[i] in m then m[keys[i]] else MissingValue)
  }

  /** `values.map(v => JSON.parse(v!))`: all documents, or None when
      `JSON.parse` throws on one of them. */
  function ParseAll(values: seq<Stored>): (r: Option<seq<Doc>>)
    ensures r.None? <==> exists i :: 0 <= i < |values| && values[i].Unparsable?
    ensures r.Some? ==> |r.value| == |values|
    ensures r.Some? ==> forall i :: 0 <= i < |values| ==> values[i] == Parsed(r.value[i])
  {
    if values == [] then Some([])
    else if values[0].Unparsable? then None
    else
      match ParseAll(values[1..])
      case None => None
      case Some(rest) => Some([values[0].doc] + rest)
  }

  /** How `some` ends: true, false, or a TypeError from `.trim()`. */
  datatype Verdict = Match | NoMatch | Throws

  /** `docs.some(item => item?.nome?.trim().toLowerCase() === target)`,
      left to right: a document without `nome` is skipped, one whose
      `nome` is not a string throws, the first equal folded name stops
      the walk. */
  function SomeNameMatches(docs: seq<Doc>, target: string): (v: Verdict)
    ensures v == Match ==>
      exists i :: 0 <= i < |docs| && docs[i].nome.Text? && Fold(docs[i].nome.s) == target
    ensures v == NoMatch <==>
      forall i :: 0 <= i < |docs| ==>
        !docs[i].nome.NonText? && (docs[i].nome.Text? ==> Fold(docs[i].nome.s) != target)
    ensures v == Throws ==> exists i :: 0 <= i < |docs| && docs[i].nome.NonText?
  {
    if docs == [] then NoMatch
    else
      match docs[0].nome
      case Absent => SomeNameMatches(docs[1..], target)
      case NonText => Throws
      case Text(s) => if Fold(s) == target then Match else SomeNameMatches(docs[1..], target)
  }

  /** The record's name is a string that folds to `target`. */
  predicate NameMatches(d: Doc, target: string)
  {
    d.nome.Text? && Fold(d.nome.s) == target
  }

  /** Position `i` is where `some` stops with true: a matching name, and
      no non-string name before it. */
  predicate MatchDecidesAt(docs: seq<Doc>, target: string, i: nat)
    requires i < |docs|
  {
    NameMatches(docs[i], target) && forall j :: 0 <= j < i ==> !docs[j].nome.NonText?
  }

  /** Position `i` is where `some` throws: a non-string name, and no
      matching name before it. */
  predicate ThrowDecidesAt(docs: seq<Doc>, target: string, i: nat)
    requires i < |docs|
  {
    docs[i].nome.NonText? && forall j :: 0 <= j < i ==> !NameMatches(docs[j], target)
  }

  /** `some` walks the documents in order and the first one that decides
      the walk wins: it answers true exactly when a matching name comes
      before every non-string name, and it throws exactly when a
      non-string name comes before every matching name. */
  lemma {:induction false} SomeStopsAtFirst(docs: seq<Doc>, target: string)
    ensures SomeNameMatches(docs, target) == Match <==>
      exists i :: 0 <= i < |docs| && MatchDecidesAt(docs, target, i)
    ensures SomeNameMatches(docs, target) == Throws <==>
      exists i :: 0 <= i < |docs| && ThrowDecidesAt(docs, target, i)
  {
    if docs != [] {
      var rest := docs[1..];
      if docs[0].nome.NonText? {
        assert ThrowDecidesAt(docs, target, 0);
        assert forall i :: 0 <= i < |docs| ==> !MatchDecidesAt(docs, target, i);
      } else if NameMatches(docs[0], target) {
        assert MatchDecidesAt(docs, target, 0);
        assert forall i :: 0 <= i < |docs| ==> !ThrowDecidesAt(docs, target, i);
      } else {
        SomeStopsAtFirst(rest, target);
        DecidersShift(docs, target);
      }
    }
  }

  /** A first document that neither matches nor throws decides nothing:
      the deciding positions of `docs` are those of the rest, one later. */
  lemma DecidersShift(docs: seq<Doc>, target: string)
    requires docs != [] && !docs[0].nome.NonText? && !NameMatches(docs[0], target)
    ensures (exists i :: 0 <= i < |docs| && MatchDecidesAt(docs, target, i)) <==>
      (exists i :: 0 <= i < |docs| - 1 && MatchDecidesAt(docs[1..], target, i))
    ensures (exists i :: 0 <= i < |docs| && ThrowDecidesAt(docs, target, i)) <==>
      (exists i :: 0 <= i < |docs| - 1 && ThrowDecidesAt(docs[1..], target, i))
  {
    var rest := docs[1..];
    forall i | 1 <= i < |docs|
      ensures MatchDecidesAt(docs, target, i) <==> MatchDecidesAt(rest, target, i - 1)
      ensures ThrowDecidesAt(docs, target, i) <==> ThrowDecidesAt(rest, target, i - 1)
    {
      assert forall j :: 1 <= j < i ==> docs[j] == rest[j - 1];
    }
    if exists i :: 0 <= i < |docs| && MatchDecidesAt(docs, target, i) {
      var i :| 0 <= i < |docs| && MatchDecidesAt(docs, target, i);
      assert MatchDecidesAt(rest, target, i - 1);
    }
    if exists i :: 0 <= i < |rest| && MatchDecidesAt(rest, target, i) {
      var i :| 0 <= i < |rest| && MatchDecidesAt(rest, target, i);
      assert MatchDecidesAt(docs, target, i + 1);
    }
    if exists i :: 0 <= i < |docs| && ThrowDecidesAt(docs, target, i) {
      var i :| 0 <= i < |docs| && ThrowDecidesAt(docs, target, i);
      assert ThrowDecidesAt(rest, target, i - 1);
    }
    if exists i :: 0 <= i < |rest| && ThrowDecidesAt(rest, target, i) {
      var i :| 0 <= i < |rest| && ThrowDecidesAt(rest, target, i);
      assert ThrowDecidesAt(docs, target, i + 1);
    }
  }

  /** The folded name of a stored value, when it has a string `nome`. */
  function FoldedName(v: Stored): Option<string>
  {
    if v.Parsed? && v.doc.nome.Text? then Some(Fold(v.doc.nome.s)) else None
  }

  /** Some department record's name equals `nome` after trim and
      lower-case. */
  ghost predicate NameTaken(m: Store, nome: string)
  {
    exists k :: k in m && IsDepartmentKey(k) && FoldedName(m[k]) == Some(Fold(nome))
  }

  /** Some department value is not valid JSON. */
  ghost predicate HasUnparsable(m: Store)
  {
    exists k :: k in m && IsDepartmentKey(k) && m[k].Unparsable?
  }

  /** Some department value has a `nome` that is not a string. */
  ghost predicate HasNonTextNome(m: Store)
  {
    exists k :: k in m && IsDepartmentKey(k) && m[k].Parsed? && m[k].doc.nome.NonText?
  }

  /** No two department records have names equal after trim and
      lower-case. */
  ghost predicate UniqueNames(m: Store)
  {
    forall k1, k2 ::
      k1 in m && k2 in m && IsDepartmentKey(k1) && IsDepartmentKey(k2) && k1 != k2 && FoldedName(m[k1]).Some?
      ==> FoldedName(m[k1]) != FoldedName(m[k2])
  }

  /** Every department name in the store passes the form schema and is
      stored trimmed. */
  ghost predicate StoredNamesValid(m: Store)
  {
    forall k :: k in m && IsDepartmentKey(k) && m[k].Parsed? && m[k].doc.nome.Text? ==>
      ValidName(Some(m[k].doc.nome.s)) && NoEdgeWhitespace(m[k].doc.nome.s)
  }

  /** The store after a successful create. */
  function AfterCreate(m: Store, id: string, nome: string): Store
  {
    m[DeptKey(id) := Parsed(NewDepartment(id, nome))]
  }

  /** `dk` lists exactly the department keys of `m`. */
  ghost predicate ListsDepartments(m: Store, dk: seq<string>)
  {
    forall k :: k in dk <==> k in m && IsDepartmentKey(k)
  }

  /** `docs` are the decoded values of the keys `dk`, position by position. */
  ghost predicate DecodedAt(m: Store, dk: seq<string>, docs: seq<Doc>)
  {
    |docs| == |dk| && forall i :: 0 <= i < |dk| ==> dk[i] in m && m[dk[i]] == Parsed(docs[i])
  }

  /** Parsing the fetched values throws iff some department value is not
      JSON; otherwise it yields each key's document in listing order. */
  lemma {:induction false} ParseAgreesWithStore(m: Store, dk: seq<string>)
    requires ListsDepartments(m, dk)
    ensures ParseAll(MultiGet(m, dk)).None? <==> HasUnparsable(m)
    ensures ParseAll(MultiGet(m, dk)).Some? ==> DecodedAt(m, dk, ParseAll(MultiGet(m, dk)).value)
  {
    var values := MultiGet(m, dk);
    assert forall i :: 0 <= i < |dk| ==> dk[i] in m && values[i] == m[dk[i]];
    if HasUnparsable(m) {
      var k :| k in m && IsDepartmentKey(k) && m[k].Unparsable?;
      assert k in dk;
      var i :| 0 <= i < |dk| && dk[i] == k;
      assert values[i].Unparsable?;
    }
  }

  /** A match found by `some` is a taken name. */
  lemma MatchMeansTaken(m: Store, dk: seq<string>, docs: seq<Doc>, nome: string)
    requires DecodedAt(m, dk, docs) && ListsDepartments(m, dk)
    requires SomeNameMatches(docs, Fold(nome)) == Match
    ensures NameTaken(m, nome)
  {
    var i :| 0 <= i < |docs| && docs[i].nome.Text? && Fold(docs[i].nome.s) == Fold(nome);
    assert dk[i] in dk;
    assert FoldedName(m[dk[i]]) == Some(Fold(nome));
  }

  /** A TypeError from `some` comes from a department with a non-string
      name. */
  lemma ThrowsMeansNonText(m: Store, dk: seq<string>, docs: seq<Doc>, nome: string)
    requires DecodedAt(m, dk, docs) && ListsDepartments(m, dk)
    requires SomeNameMatches(docs, Fold(nome)) == Throws
    ensures HasNonTextNome(m)
  {
    var i :| 0 <= i < |docs| && docs[i].nome.NonText?;
    assert dk[i] in dk;
    assert m[dk[i]].Parsed? && m[dk[i]].doc.nome.NonText?;
  }

  /** `some` answers false exactly when no department name is taken and
      none is a non-string. */
  lemma NoMatchIffFree(m: Store, dk: seq<string>, docs: seq<Doc>, nome: string)
    requires DecodedAt(m, dk, docs) && ListsDepartments(m, dk)
    ensures SomeNameMatches(docs, Fold(nome)) == NoMatch <==> !NameTaken(m, nome) && !HasNonTextNome(m)
  {
    if SomeNameMatches(docs, Fold(nome)) == NoMatch {
      forall k | k in m && IsDepartmentKey(k)
        ensures FoldedName(m[k]) != Some(Fold(nome)) && !(m[k].Parsed? && m[k].doc.nome.NonText?)
      {
        assert k in dk;
        var i :| 0 <= i < |dk| && dk[i] == k;
        assert m[k] == Parsed(docs[i]);
      }
    } else if !NameTaken(m, nome) && !HasNonTextNome(m) {
      forall i | 0 <= i < |docs|
        ensures !docs[i].nome.NonText? && (docs[i].nome.Text? ==> Fold(docs[i].nome.s) != Fold(nome))
      {
        assert dk[i] in dk;
        assert m[dk[i]] == Parsed(docs[i]);
      }
    }
  }

  /** The read pipeline of `handleSave`, run over any listing of all the
      store's keys, decides exactly what the store-level predicates say:
      it throws while parsing iff a department value is not JSON, and the
      walk of `some` matches only taken names and finds nothing exactly
      when no department name is taken and none is a non-string. */
  lemma {:induction false} ScanAgreesWithStore(m: Store, keys: seq<string>, nome: string)
    requires forall k :: k in keys <==> k in m
    ensures ParseAll(MultiGet(m, DepartmentKeys(keys))).None? <==> HasUnparsable(m)
    ensures ParseAll(MultiGet(m, DepartmentKeys(keys))).Some? ==>
      var v := SomeNameMatches(ParseAll(MultiGet(m, DepartmentKeys(keys))).value, Fold(nome));
      && (v == Match ==> NameTaken(m, nome))
      && (v == NoMatch <==> !NameTaken(m, nome) && !HasNonTextNome(m))
      && (v == Throws ==> HasNonTextNome(m))
  {
    var dk := DepartmentKeys(keys);
    assert ListsDepartments(m, dk);
    ParseAgreesWithStore(m, dk);
    var parsed := ParseAll(MultiGet(m, dk));
    if parsed.Some? {
      var docs := parsed.value;
      NoMatchIffFree(m, dk, docs, nome);
      match SomeNameMatches(docs, Fold(nome))
      case Match => MatchMeansTaken(m, dk, docs, nome);
      case Throws => ThrowsMeansNonText(m, dk, docs, nome);
      case NoMatch =>
    }
  }

  /** Only the `department_` keyspace is consulted: writing or deleting
      any other key changes none of the facts a create depends on. */
  lemma OtherKeysIrrelevant(m: Store, k: string, v: Stored, nome: string)
    requires !IsDepartmentKey(k)
    ensures NameTaken(m[k := v], nome) == NameTaken(m, nome) == NameTaken(m - {k}, nome)
    ensures HasUnparsable(m[k := v]) == HasUnparsable(m) == HasUnparsable(m - {k})
    ensures HasNonTextNome(m[k := v]) == HasNonTextNome(m) == HasNonTextNome(m - {k})
  {
    if NameTaken(m, nome) {
      var j :| j in m && IsDepartmentKey(j) && FoldedName(m[j]) == Some(Fold(nome));
      assert j in m[k := v] && m[k := v][j] == m[j];
      assert j in m - {k};
    }
    if HasUnparsable(m) {
      var j :| j in m && IsDepartmentKey(j) && m[j].Unparsable?;
      assert j in m[k := v] && m[k := v][j] == m[j];
      assert j in m - {k};
    }
    if HasNonTextNome(m) {
      var j :| j in m && IsDepartmentKey(j) && m[j].Parsed? && m[j].doc.nome.NonText?;
      assert j in m[k := v] && m[k := v][j] == m[j];
      assert j in m - {k};
    }
  }

  /** A department record whose `nome` is absent (`item?.nome` is null or
      undefined, so `?.trim()` stops) never counts as a duplicate: the
      store answers as if the record were not there. A `nome` that is not
      a string is not skipped; it makes the scan throw instead. */
  lemma AbsentNomeIgnored(m: Store, k: string, id: Option<string>, nome: string)
    ensures NameTaken(m[k := Parsed(Doc(id, Absent))], nome) == NameTaken(m - {k}, nome)
  {
    var m' := m[k := Parsed(Doc(id, Absent))];
    if NameTaken(m - {k}, nome) {
      var j :| j in m - {k} && IsDepartmentKey(j) && FoldedName((m - {k})[j]) == Some(Fold(nome));
      assert j in m' && m'[j] == m[j];
    }
  }

  /** After a create, the created name, and every spelling of it that
      differs only in case or surrounding whitespace, is taken. */
  lemma {:induction false} CreatedNameIsTaken(m: Store, id: string, nome: string, again: string)
    requires Fold(again) == Fold(nome)
    ensures NameTaken(AfterCreate(m, id, nome), again)
  {
    var m' := AfterCreate(m, id, nome);
    assert DeptKey(id) in m' && IsDepartmentKey(DeptKey(id));
    assert FoldedName(m'[DeptKey(id)]) == Some(Fold(again));
  }

  /** A create that found no taken name keeps the department names
      pairwise distinct after trim and lower-case. */
  lemma {:induction false} CreatePreservesUniqueNames(m: Store, id: string, nome: string)
    requires UniqueNames(m)
    requires !NameTaken(m, nome)
    ensures UniqueNames(AfterCreate(m, id, nome))
  {
    var m' := AfterCreate(m, id, nome);
    var key := DeptKey(id);
    assert FoldedName(m'[key]) == Some(Fold(nome));
    forall k1, k2 | k1 in m' && k2 in m' && IsDepartmentKey(k1) && IsDepartmentKey(k2) && k1 != k2 && FoldedName(m'[k1]).Some?
      ensures FoldedName(m'[k1]) != FoldedName(m'[k2])
    {
      if k1 == key {
        assert k2 in m && m'[k2] == m[k2];
      } else if k2 == key {
        assert k1 in m && m'[k1] == m[k1];
      } else {
        assert m'[k1] == m[k1] && m'[k2] == m[k2];
      }
    }
  }

  /** A create of a name the schema accepts keeps every department name
      valid and trimmed. */
  lemma {:induction false} CreatePreservesValidNames(m: Store, id: string, nome: string)
    requires StoredNamesValid(m)
    requires ValidName(Some(nome))
    ensures StoredNamesValid(AfterCreate(m, id, nome))
  {
    var m' := AfterCreate(m, id, nome);
    StoredNameRevalidates(nome);
    forall k | k in m' && IsDepartmentKey(k) && m'[k].Parsed? && m'[k].doc.nome.Text?
      ensures ValidName(Some(m'[k].doc.nome.s)) && NoEdgeWhitespace(m'[k].doc.nome.s)
    {
      if k != DeptKey(id) {
        assert m'[k] == m[k];
      }
    }
  }

  /** The record a create writes is clean: if no department value was
      unparsable or had a non-string name before, none has after, so the
      next save's scan runs to the end and refuses every spelling of the
      name just saved. */
  lemma {:induction false} SecondCreateRejected(m: Store, id: string, nome: string, again: string)
    requires !HasUnparsable(m) && !HasNonTextNome(m)
    requires Fold(again) == Fold(nome)
    ensures !HasUnparsable(AfterCreate(m, id, nome)) && !HasNonTextNome(AfterCreate(m, id, nome))
    ensures NameTaken(AfterCreate(m, id, nome), again)
  {
    var m' := AfterCreate(m, id, nome);
    forall k | k in m' && IsDepartmentKey(k)
      ensures !m'[k].Unparsable? && !(m'[k].Parsed? && m'[k].doc.nome.NonText?)
    {
      if k != DeptKey(id) {
        assert m'[k] == m[k];
      }
    }
    CreatedNameIsTaken(m, id, nome, again);
  }

  /** A create writes one entry: `department_<id>` holds the new record
      and every other key keeps its value. The store gains that key when
      the id is unused; a reused id (two creates in the same millisecond)
      overwrites the record already stored there and the store does not
      grow. */
  lemma {:induction false} CreateWritesOneKey(m: Store, id: string, nome: string)
    ensures AfterCreate(m, id, nome)[DeptKey(id)] == Parsed(NewDepartment(id, nome))
    ensures forall k :: k != DeptKey(id) ==>
      (k in AfterCreate(m, id, nome) <==> k in m) && (k in m ==> AfterCreate(m, id, nome)[k] == m[k])
    ensures DeptKey(id) !in m ==>
      AfterCreate(m, id, nome).Keys == m.Keys + {DeptKey(id)} && |AfterCreate(m, id, nome)| == |m| + 1
    ensures DeptKey(id) in m ==>
      AfterCreate(m, id, nome).Keys == m.Keys && |AfterCreate(m, id, nome)| == |m|
  {
    var m' := AfterCreate(m, id, nome);
    if DeptKey(id) !in m {
      assert m'.Keys == m.Keys + {DeptKey(id)};
      assert |m'.Keys| == |m.Keys| + 1;
    } else {
      assert m'.Keys == m.Keys;
    }
  }

  /** The stored name is already in trimmed form: trimming it again
      changes nothing. */
  lemma {:induction false} StoredNameIsTrimmed(id: string, nome: string)
    ensures Trim(NewDepartment(id, nome).nome.s) == NewDepartment(id, nome).nome.s
  {
    TrimIdempotent(nome);
  }

  /** A create takes only its own name: a name free before, with another
      folded form, is still free afterwards. */
  lemma {:induction false} OtherNamesStayFree(m: Store, id: string, nome: string, other: string)
    requires !NameTaken(m, other)
    requires Fold(other) != Fold(nome)
    ensures !NameTaken(AfterCreate(m, id, nome), other)
  {
    var m' := AfterCreate(m, id, nome);
    forall k | k in m' && IsDepartmentKey(k)
      ensures FoldedName(m'[k]) != Some(Fold(other))
    {
      if k != DeptKey(id) {
        assert m'[k] == m[k];
      }
    }
  }

  /** Creating a name again in another spelling, with letters in other
      case and whitespace around it, finds it taken. */
  lemma {:induction false} RespelledNameIsTaken(m: Store, id: string, nome: string, t: string, pad1: string, pad2: string)
    requires |t| == |nome| && forall j :: 0 <= j < |t| ==> LowerChar(t[j]) == LowerChar(nome[j])
    requires AllWhitespace(pad1)
    requires AllWhitespace(pad2)
    ensures NameTaken(AfterCreate(m, id, nome), pad1 + t + pad2)
  {
    TrimIgnoresPadding(pad1, t, pad2);
    FoldIgnoresCase(t, nome);
    CreatedNameIsTaken(m, id, nome, pad1 + t + pad2);
  }
}
