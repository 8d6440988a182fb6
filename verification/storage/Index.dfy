/** The in-memory indexes of one table. */
module Index {
  import opened ByteOrder
  import opened Log
  import opened Collections

  type ID = Bytes
  type Data = map<string, string>

  /** field -> value -> ids, and its mirror id -> field -> value. */
  type Postings = map<string, map<string, set<ID>>>
  type FieldValues = map<ID, map<string, string>>

  /** term -> ids, and its mirror id -> terms. */
  type TermPostings = map<string, set<ID>>
  type TermLists = map<ID, seq<string>>

  predicate Posted(sec: Postings, f: string, v: string, id: ID) {
    f in sec && v in sec[f] && id in sec[f][v]
  }

  function ValuesOf(fv: FieldValues, id: ID): map<string, string> {
    if id in fv then fv[id] else map[]
  }

  predicate HasValue(fv: FieldValues, f: string, v: string, id: ID) {
    var vals := ValuesOf(fv, id);
    f in vals && vals[f] == v
  }

  /** The two sides say the same, and no set of ids is kept empty. */
  ghost predicate Mirrors(sec: Postings, fv: FieldValues) {
    && (forall f, v, id :: Posted(sec, f, v, id) <==> HasValue(fv, f, v, id))
    && NoEmptyPosting(sec)
    && (forall id | id in fv :: fv[id] != map[])
  }

  ghost predicate NoEmptyPosting(sec: Postings) {
    forall f, v | f in sec && v in sec[f] :: sec[f][v] != {}
  }

  function AddPosting(sec: Postings, f: string, v: string, id: ID): (r: Postings)
    requires NoEmptyPosting(sec)
    ensures NoEmptyPosting(r)
    ensures forall f', v', id' :: Posted(r, f', v', id') <==> Posted(sec, f', v', id') || (f', v', id') == (f, v, id)
  {
    var vals := if f in sec then sec[f] else map[];
    var ids := if v in vals then vals[v] else {};
    sec[f := vals[v := ids + {id}]]
  }

  /** A value whose last id goes is dropped; its field stays. */
  function DropPosting(sec: Postings, f: string, v: string, id: ID): (r: Postings)
    requires NoEmptyPosting(sec)
    ensures NoEmptyPosting(r)
    ensures forall f', v', id' :: Posted(r, f', v', id') <==> Posted(sec, f', v', id') && (f', v', id') != (f, v, id)
  {
    if f in sec && v in sec[f] then
      var ids := sec[f][v] - {id};
      assert forall x | x in sec[f][v] :: x in ids || x == id;
      sec[f := if ids == {} then sec[f] - {v} else sec[f][v := ids]]
    else sec
  }

  function TermsOf(terms: TermLists, id: ID): seq<string> {
    if id in terms then terms[id] else []
  }

  predicate TermPosted(ids: TermPostings, t: string, id: ID) {
    t in ids && id in ids[t]
  }

  ghost predicate TermMirrors(ids: TermPostings, terms: TermLists) {
    && (forall t, id :: TermPosted(ids, t, id) <==> t in TermsOf(terms, id))
    && NoEmptyTerm(ids)
    && (forall id | id in terms :: terms[id] != [])
  }

  ghost predicate NoEmptyTerm(ids: TermPostings) {
    forall t | t in ids :: ids[t] != {}
  }

  lemma OneValue(sec: Postings, fv: FieldValues, id: ID, field: string)
    requires Mirrors(sec, fv) && id in fv && field in fv[id]
    ensures forall v :: Posted(sec, field, v, id) ==> v == fv[id][field]
  {
    hide Posted;
  }

  /** Without one id's postings the rest mirrors the other documents' values. */
  lemma FieldsForgotten(before: Postings, sec: Postings, fv: FieldValues, id: ID)
    requires Mirrors(before, fv) && id in fv && NoEmptyPosting(sec)
    requires forall f, v, id' ::
               Posted(sec, f, v, id') <==> Posted(before, f, v, id') && !(id' == id && f in fv[id])
    ensures Mirrors(sec, fv - {id})
  {
    hide Posted, NoEmptyPosting;
  }

  lemma NoEmptyField(sec: Postings, fv: FieldValues)
    requires Mirrors(sec, fv)
    ensures NoEmptyPosting(sec)
  {
  }

  lemma MirrorsNoEmpty(ids: TermPostings, terms: TermLists)
    requires TermMirrors(ids, terms)
    ensures NoEmptyTerm(ids)
  {
  }

  /** Without one id's postings the rest mirrors the other term lists. */
  lemma TermsForgotten(before: TermPostings, ids: TermPostings, terms: TermLists, id: ID)
    requires TermMirrors(before, terms) && id in terms && NoEmptyTerm(ids)
    requires forall t, id' ::
               TermPosted(ids, t, id') <==> TermPosted(before, t, id') && !(id' == id && t in terms[id])
    ensures TermMirrors(ids, terms - {id})
  {
    hide TermPosted, NoEmptyTerm;
  }

  function AddTerm(ids: TermPostings, t: string, id: ID): (r: TermPostings)
    requires NoEmptyTerm(ids)
    ensures NoEmptyTerm(r)
    ensures forall t', id' :: TermPosted(r, t', id') <==> TermPosted(ids, t', id') || (t', id') == (t, id)
  {
    ids[t := (if t in ids then ids[t] else {}) + {id}]
  }

  function DropTerm(ids: TermPostings, t: string, id: ID): (r: TermPostings)
    requires NoEmptyTerm(ids)
    ensures NoEmptyTerm(r)
    ensures forall t', id' :: TermPosted(r, t', id') <==> TermPosted(ids, t', id') && (t', id') != (t, id)
  {
    if t in ids then
      var left := ids[t] - {id};
      assert forall x | x in ids[t] :: x in left || x == id;
      if left == {} then ids - {t} else ids[t := left]
    else ids
  }

  function Restrict(data: Data, fields: set<string>): Data {
    map f | f in data && f in fields :: data[f]
  }

  lemma RestrictMore(data: Data, fields: set<string>, f: string)
    ensures Restrict(data, fields + {f})
            == if f in data then Restrict(data, fields)[f := data[f]] else Restrict(data, fields)
    ensures Restrict(data, fields).Keys <= fields
  {
  }

  /** sec is before and the values of rev posted for id. */
  ghost predicate PostedPlus(before: Postings, sec: Postings, id: ID, rev: map<string, string>) {
    forall f, v, i :: Posted(sec, f, v, i) <==> Posted(before, f, v, i) || (i == id && f in rev && rev[f] == v)
  }

  lemma PostOne(before: Postings, sec: Postings, id: ID, rev: map<string, string>, f: string, v: string)
    requires NoEmptyPosting(sec) && PostedPlus(before, sec, id, rev) && f !in rev
    ensures PostedPlus(before, AddPosting(sec, f, v, id), id, rev[f := v])
  {
  }

  /** The field values with those of one more id. */
  lemma ValuesPut(fv: FieldValues, id: ID, rev: map<string, string>)
    requires id !in fv
    ensures var fv' := if rev == map[] then fv else fv[id := rev];
            ValuesOf(fv', id) == rev && forall i | i != id :: ValuesOf(fv', i) == ValuesOf(fv, i)
  {
  }

  lemma PostNone(sec: Postings, id: ID)
    ensures PostedPlus(sec, sec, id, map[])
  {
  }

  lemma NoFields(data: Data)
    ensures Restrict(data, {}) == map[]
  {
  }

  lemma PostedMirrors(before: Postings, sec: Postings, fv: FieldValues, id: ID, rev: map<string, string>)
    requires Mirrors(before, fv) && id !in fv
    requires NoEmptyPosting(sec) && PostedPlus(before, sec, id, rev)
    ensures Mirrors(sec, if rev == map[] then fv else fv[id := rev])
  {
    var fv' := if rev == map[] then fv else fv[id := rev];
    forall f, v, i ensures Posted(sec, f, v, i) <==> HasValue(fv', f, v, i) {
      assert Posted(before, f, v, i) <==> HasValue(fv, f, v, i);
    }
  }

  /** ids is before and the terms posted for id. */
  ghost predicate TermsPlus(before: TermPostings, ids: TermPostings, id: ID, terms: seq<string>) {
    forall t, i :: TermPosted(ids, t, i) <==> TermPosted(before, t, i) || (i == id && t in terms)
  }

  lemma TermsMirror(before: TermPostings, ids: TermPostings, lists: TermLists, id: ID, terms: seq<string>)
    requires TermMirrors(before, lists) && id !in lists
    requires NoEmptyTerm(ids) && TermsPlus(before, ids, id, terms)
    ensures TermMirrors(ids, if terms == [] then lists else lists[id := terms])
  {
    var lists' := if terms == [] then lists else lists[id := terms];
    forall t, i ensures TermPosted(ids, t, i) <==> t in TermsOf(lists', i) {
      assert TermPosted(before, t, i) <==> t in TermsOf(lists, i);
    }
  }

  /** Every term of the text in the given fields. */
  ghost function DataTerms(tokenize: string -> seq<string>, data: Data, fields: set<string>): set<string> {
    set f, t | f in fields && f in data && t in tokenize(data[f]) :: t
  }

  lemma DataTermsMore(tokenize: string -> seq<string>, data: Data, fields: set<string>, f: string)
    ensures DataTerms(tokenize, data, fields + {f})
            == DataTerms(tokenize, data, fields) + if f in data then Elements(tokenize(data[f])) else {}
  {
  }

  // ----- what the indexes know of the documents

  /** While fields are declared, every document's values of them are the ones indexed. */
  ghost predicate FieldsKnown(fields: set<string>, fv: FieldValues, docs: map<ID, Data>) {
    fields != {} ==> forall id | id in docs :: ValuesOf(fv, id) == Restrict(docs[id], fields)
  }

  ghost predicate FieldsUpdated(fields: set<string>, before: FieldValues, after: FieldValues, id: ID, data: Data) {
    if fields == {} then after == before
    else && ValuesOf(after, id) == Restrict(data, fields)
         && forall i | i != id :: ValuesOf(after, i) == ValuesOf(before, i)
  }

  lemma FieldsAfterUpdate(fields: set<string>, before: FieldValues, after: FieldValues, id: ID, data: Data,
                          docs: map<ID, Data>)
    requires FieldsUpdated(fields, before, after, id, data)
    ensures FieldsKnown(fields, before, docs) ==> FieldsKnown(fields, after, docs[id := data])
    ensures FieldsKnown(fields, before, docs) ==> FieldsKnown(fields, after, docs - {id})
    ensures FieldsKnown(fields, before, docs - {id}) ==> FieldsKnown(fields, after, docs[id := data])
  {
  }

  /** While search fields are declared, every document's terms in them are the ones indexed. */
  ghost predicate TextKnown(tokenize: string -> seq<string>, fields: set<string>, terms: TermLists,
                            docs: map<ID, Data>) {
    fields != {} ==> forall id | id in docs :: Elements(TermsOf(terms, id)) == DataTerms(tokenize, docs[id], fields)
  }

  ghost predicate TextUpdated(tokenize: string -> seq<string>, fields: set<string>,
                              before: TermLists, after: TermLists, id: ID, data: Data) {
    if fields == {} then after == before
    else
      && Elements(TermsOf(after, id)) == DataTerms(tokenize, data, fields)
      && forall i | i != id :: TermsOf(after, i) == TermsOf(before, i)
  }

  lemma NoTextUpdated(tokenize: string -> seq<string>, fields: set<string>,
                      before: TermLists, after: TermLists, id: ID, data: Data)
    requires TextUpdated(tokenize, fields, before, after, id, data)
    ensures fields == {} ==> after == before
  {
  }

  lemma TextAfterUpdate(tokenize: string -> seq<string>, fields: set<string>,
                        before: TermLists, after: TermLists, id: ID, data: Data, docs: map<ID, Data>)
    requires TextUpdated(tokenize, fields, before, after, id, data)
    ensures TextKnown(tokenize, fields, before, docs) ==> TextKnown(tokenize, fields, after, docs[id := data])
    ensures TextKnown(tokenize, fields, before, docs) ==> TextKnown(tokenize, fields, after, docs - {id})
    ensures TextKnown(tokenize, fields, before, docs - {id}) ==> TextKnown(tokenize, fields, after, docs[id := data])
  {
  }

  /** Some text has a term, and all its terms are listed. */
  ghost predicate HasText(tokenize: string -> seq<string>, terms: seq<string>) {
    exists text :: tokenize(text) != [] && forall t | t in tokenize(text) :: t in terms
  }

  /** Whatever an id is indexed under, and since whenever, came from a text. */
  ghost predicate Sourced(tokenize: string -> seq<string>, lists: TermLists) {
    forall id | id in lists :: HasText(tokenize, lists[id])
  }

  lemma HasTextMore(tokenize: string -> seq<string>, terms: seq<string>, text: string)
    requires terms != [] ==> HasText(tokenize, terms)
    ensures terms + tokenize(text) != [] ==> HasText(tokenize, terms + tokenize(text))
  {
    if tokenize(text) == [] {
      assert terms + tokenize(text) == terms;
    }
  }

  class TableIndex {
    const tokenize: string -> seq<string>

    var locationByID: map<ID, Location>
    var secondaryByField: Postings
    var fieldValuesByID: FieldValues
    var idsByTerm: TermPostings
    var termsByID: TermLists
    var indexedFields: set<string>
    var searchFields: set<string>

    ghost predicate Valid()
      reads this
    {
      && Mirrors(secondaryByField, fieldValuesByID)
      && TermMirrors(idsByTerm, termsByID)
      && Sourced(tokenize, termsByID)
    }

    /** No field is searched and no term is known. */
    ghost predicate Textless()
      reads this
    {
      searchFields == {} && termsByID == map[]
    }

    constructor (tokenize: string -> seq<string>)
      ensures Valid() && this.tokenize == tokenize
      ensures locationByID == map[] && indexedFields == {} && searchFields == {}
      ensures fieldValuesByID == map[] && termsByID == map[]
    {
      this.tokenize := tokenize;
      locationByID, secondaryByField, fieldValuesByID := map[], map[], map[];
      idsByTerm, termsByID := map[], map[];
      indexedFields, searchFields := {}, {};
    }

    method SetPrimary(id: ID, loc: Location)
      modifies `locationByID
      ensures locationByID == old(locationByID)[id := loc]
    {
      locationByID := locationByID[id := loc];
    }

    method DeletePrimary(id: ID)
      modifies `locationByID
      ensures locationByID == old(locationByID) - {id}
    {
      locationByID := locationByID - {id};
    }

    /** Forgets what id was indexed under and indexes the declared fields of data. */
    method UpdateSecondary(id: ID, data: Data)
      requires Valid()
      modifies `secondaryByField, `fieldValuesByID
      ensures Valid()
      ensures FieldsUpdated(indexedFields, old(fieldValuesByID), fieldValuesByID, id, data)
    {
      if indexedFields == {} {
        return;
      }
      ForgetFields(id);
      if data == map[] {
        return;
      }
      IndexFields(id, data);
    }

    method IndexFields(id: ID, data: Data)
      requires Valid() && id !in fieldValuesByID
      modifies `secondaryByField, `fieldValuesByID
      ensures Valid()
      ensures ValuesOf(fieldValuesByID, id) == Restrict(data, indexedFields)
      ensures forall i | i != id :: ValuesOf(fieldValuesByID, i) == ValuesOf(old(fieldValuesByID), i)
    {
      hide Restrict, PostedPlus, NoEmptyPosting, Mirrors, TermMirrors, Sourced, ValuesOf;
      NoEmptyField(secondaryByField, fieldValuesByID);
      var rev := PostFields(id, data);
      PostedMirrors(old(secondaryByField), secondaryByField, fieldValuesByID, id, rev);
      ValuesPut(fieldValuesByID, id, rev);
      if |rev| > 0 {
        fieldValuesByID := fieldValuesByID[id := rev];
      }
    }

    /** Posts the id under its declared fields, in any order. */
    method PostFields(id: ID, data: Data) returns (rev: map<string, string>)
      requires NoEmptyPosting(secondaryByField)
      modifies `secondaryByField
      ensures NoEmptyPosting(secondaryByField)
      ensures rev == Restrict(data, indexedFields) && PostedPlus(old(secondaryByField), secondaryByField, id, rev)
    {
      hide Restrict, PostedPlus, AddPosting, NoEmptyPosting, Posted, Distinct, Elements;
      rev := map[];
      NoFields(data);
      PostNone(secondaryByField, id);
      var fields := List(indexedFields);
      NoElements(fields);
      for i := 0 to |fields|
        invariant NoEmptyPosting(secondaryByField)
        invariant rev == Restrict(data, Elements(fields[..i]))
        invariant PostedPlus(old(secondaryByField), secondaryByField, id, rev)
      {
        var field := fields[i];
        OneElementMore(fields, i);
        RestrictMore(data, Elements(fields[..i]), field);
        if field in data {
          var val := data[field];
          PostOne(old(secondaryByField), secondaryByField, id, rev, field, val);
          secondaryByField := AddPosting(secondaryByField, field, val, id);
          rev := rev[field := val];
        }
      }
    }

    method ForgetFields(id: ID)
      requires Valid()
      modifies `secondaryByField, `fieldValuesByID
      ensures Valid()
      ensures fieldValuesByID == old(fieldValuesByID) - {id}
    {
      hide Mirrors, TermMirrors, Sourced, Posted, NoEmptyPosting, DropPosting;
      if id in fieldValuesByID {
        NoEmptyField(secondaryByField, fieldValuesByID);
        ghost var before := secondaryByField;
        var prev := fieldValuesByID[id];
        var fields := List(prev.Keys);
        for i := 0 to |fields|
          invariant unchanged(`fieldValuesByID) && NoEmptyPosting(secondaryByField)
          invariant forall f, v, id' ::
                      Posted(secondaryByField, f, v, id')
                      <==> Posted(before, f, v, id') && !(id' == id && f in fields[..i])
        {
          var field := fields[i];
          assert field in Elements(fields);
          OneValue(before, fieldValuesByID, id, field);
          secondaryByField := DropPosting(secondaryByField, field, prev[field], id);
        }
        assert forall f :: f in fields <==> f in Elements(fields);
        FieldsForgotten(before, secondaryByField, fieldValuesByID, id);
        fieldValuesByID := fieldValuesByID - {id};
      } else {
        assert fieldValuesByID - {id} == fieldValuesByID;
      }
    }

    method RemoveSecondary(id: ID)
      requires Valid()
      modifies `secondaryByField, `fieldValuesByID
      ensures Valid()
      ensures FieldsUpdated(indexedFields, old(fieldValuesByID), fieldValuesByID, id, map[])
    {
      UpdateSecondary(id, map[]);
    }

    /** The ids under a value of a field, each once. */
    method LookupSecondary(field: string, value: string) returns (ids: seq<ID>)
      requires Valid()
      ensures Distinct(ids)
      ensures forall id :: id in ids <==> HasValue(fieldValuesByID, field, value, id)
    {
      assert forall id :: Posted(secondaryByField, field, value, id) <==> HasValue(fieldValuesByID, field, value, id);
      if field !in secondaryByField {
        return [];
      }
      var vals := secondaryByField[field];
      if value !in vals {
        return [];
      }
      ids := List(vals[value]);
      assert forall id :: id in ids <==> id in Elements(ids);
    }

    method HasSecondaryField(field: string) returns (has: bool)
      ensures has <==> field in indexedFields
    {
      return field in indexedFields;
    }

    method UpdateText(id: ID, data: Data)
      requires Valid()
      modifies `idsByTerm, `termsByID
      ensures Valid()
      ensures TextUpdated(tokenize, searchFields, old(termsByID), termsByID, id, data)
    {
      if searchFields == {} {
        return;
      }
      ForgetTerms(id);
      if data == map[] {
        assert DataTerms(tokenize, data, searchFields) == {};
        return;
      }
      IndexTerms(id, data);
    }

    method IndexTerms(id: ID, data: Data)
      requires Valid() && id !in termsByID
      modifies `idsByTerm, `termsByID
      ensures Valid()
      ensures Elements(TermsOf(termsByID, id)) == DataTerms(tokenize, data, searchFields)
      ensures forall i | i != id :: TermsOf(termsByID, i) == TermsOf(old(termsByID), i)
    {
      var terms: seq<string> := [];
      var fields := List(searchFields);
      assert fields[..|fields|] == fields;
      for i := 0 to |fields|
        invariant unchanged(`termsByID) && NoEmptyTerm(idsByTerm)
        invariant Elements(terms) == DataTerms(tokenize, data, Elements(fields[..i]))
        invariant TermsPlus(old(idsByTerm), idsByTerm, id, terms)
        invariant terms != [] ==> HasText(tokenize, terms)
      {
        var field := fields[i];
        assert Elements(fields[..i + 1]) == Elements(fields[..i]) + {field};
        DataTermsMore(tokenize, data, Elements(fields[..i]), field);
        if field in data {
          ghost var more := tokenize(data[field]);
          assert Elements(terms + more) == Elements(terms) + Elements(more);
          HasTextMore(tokenize, terms, data[field]);
          terms := PostTerms(id, tokenize(data[field]), terms, old(idsByTerm));
        }
      }
      TermsMirror(old(idsByTerm), idsByTerm, termsByID, id, terms);
      if |terms| > 0 {
        termsByID := termsByID[id := terms];
      }
    }

    method PostTerms(id: ID, tokens: seq<string>, terms: seq<string>, ghost before: TermPostings)
      returns (terms': seq<string>)
      requires NoEmptyTerm(idsByTerm) && TermsPlus(before, idsByTerm, id, terms)
      modifies `idsByTerm
      ensures NoEmptyTerm(idsByTerm) && TermsPlus(before, idsByTerm, id, terms')
      ensures terms' == terms + tokens
    {
      terms' := terms;
      for i := 0 to |tokens|
        invariant NoEmptyTerm(idsByTerm) && TermsPlus(before, idsByTerm, id, terms')
        invariant terms' == terms + tokens[..i]
      {
        idsByTerm := AddTerm(idsByTerm, tokens[i], id);
        terms' := terms' + [tokens[i]];
      }
    }

    method ForgetTerms(id: ID)
      requires Valid()
      modifies `idsByTerm, `termsByID
      ensures Valid()
      ensures termsByID == old(termsByID) - {id}
    {
      hide TermPosted, NoEmptyTerm, DropTerm, TermMirrors;
      if id in termsByID {
        MirrorsNoEmpty(idsByTerm, termsByID);
        ghost var before := idsByTerm;
        var terms := termsByID[id];
        for i := 0 to |terms|
          invariant unchanged(`termsByID) && NoEmptyTerm(idsByTerm)
          invariant forall t, id' ::
                      TermPosted(idsByTerm, t, id') <==> TermPosted(before, t, id') && !(id' == id && t in terms[..i])
        {
          idsByTerm := DropTerm(idsByTerm, terms[i], id);
        }
        assert terms[..|terms|] == terms;
        TermsForgotten(before, idsByTerm, termsByID, id);
        termsByID := termsByID - {id};
      } else {
        assert termsByID - {id} == termsByID;
      }
    }

    method RemoveText(id: ID)
      requires Valid()
      modifies `idsByTerm, `termsByID
      ensures Valid()
      ensures TextUpdated(tokenize, searchFields, old(termsByID), termsByID, id, map[])
    {
      UpdateText(id, map[]);
    }

    /** The ids indexed under every term of the query, each once; none for a query without terms. */
    method SearchText(query: string) returns (ids: seq<ID>)
      requires Valid()
      ensures Distinct(ids)
      ensures forall id :: id in ids <==> tokenize(query) != [] && IndexedUnder(id, tokenize(query))
    {
      assert forall t, id :: TermPosted(idsByTerm, t, id) <==> t in TermsOf(termsByID, id);
      var terms := tokenize(query);
      if |terms| == 0 {
        return [];
      }
      if terms[0] !in idsByTerm {
        assert forall id | IndexedUnder(id, terms) :: TermPosted(idsByTerm, terms[0], id);
        return [];
      }
      var result := idsByTerm[terms[0]];
      assert forall id :: id in result <==> TermPosted(idsByTerm, terms[0], id);
      for i := 1 to |terms|
        invariant forall id :: id in result <==> IndexedUnder(id, terms[..i])
      {
        var term := terms[i];
        ghost var was := result;
        result := if term in idsByTerm then result * idsByTerm[term] else {};
        assert forall id :: id in result <==> id in was && TermPosted(idsByTerm, term, id);
        assert forall t :: t in terms[..i + 1] <==> t in terms[..i] || t == term;
        if result == {} {
          assert forall id :: IndexedUnder(id, terms) ==> IndexedUnder(id, terms[..i + 1]);
          return [];
        }
      }
      assert terms[..|terms|] == terms;
      ids := List(result);
      assert forall id :: id in ids <==> id in Elements(ids);
    }

    ghost predicate IndexedUnder(id: ID, terms: seq<string>)
      reads this
    {
      forall t | t in terms :: t in TermsOf(termsByID, id)
    }

    method SetSchema(indexed: seq<string>, search: seq<string>)
      modifies `indexedFields, `searchFields
      ensures indexedFields == Elements(indexed) && searchFields == Elements(search)
    {
      indexedFields := set f | f in indexed;
      searchFields := set f | f in search;
    }
  }
}
