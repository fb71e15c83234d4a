/**
 * The document store the record engine runs on: JSON-like documents kept in
 * named tables, the two query shapes the engine builds (`where(f) == v` and
 * `where(f)[s] == v`) and the per-table primitives it applies (search, get,
 * update-where, remove-where).  A table that was never written reads as empty.
 */
module Store {

  datatype Option<T> = None | Some(value: T)

  /** The ways a call into the record engine can fail. */
  datatype Error =
    | MissingField(field: string)          // a subscript on a field that is absent or not a mapping
    | MissingRecord                        // the targeted record does not exist
    | ImmutableField(field: string)        // an update tried to touch an identity field
    | AmbiguousAssociation(subject: string) // more than one upstream record shares the key
    | IdentifierMismatch(field: string)    // an identifier disagrees with the payload

  datatype Result<T> = Success(value: T) | Failure(error: Error)

  /** A JSON-like value; `Time` holds a timestamp in microseconds. */
  datatype Value =
    | Str(s: string)
    | Num(n: int)
    | Time(micros: nat)
    | Obj(fields: map<string, Value>)
    | List(items: seq<Value>)

  /** A document: a mapping from field names to values. */
  type Doc = map<string, Value>

  /** The whole store: table name to the documents of that table, in storage order. */
  type Tables = map<string, seq<Doc>>

  function TableOf(ts: Tables, name: string): seq<Doc>
  {
    if name in ts then ts[name] else []
  }

  /** The mapping held by field `f` of `d`, if `d` has such a field and it is a mapping. */
  function FieldItems(d: Doc, f: string): (r: Option<map<string, Value>>)
    ensures r.Some? <==> f in d && d[f].Obj?
    ensures r.Some? ==> r.value == d[f].fields
  {
    if f in d && d[f].Obj? then Some(d[f].fields) else None
  }

  /** Every pair of `a` is a pair of `b` (Python's `a.items() <= b.items()`). */
  predicate SubMap(a: map<string, Value>, b: map<string, Value>)
  {
    forall k :: k in a ==> k in b && b[k] == a[k]
  }

  /** Every field of `part` is in `d` with the same value. */
  predicate Includes(d: Doc, part: Doc)
  {
    SubMap(part, d)
  }

  /** A query: `where(field) == value` or `where(field)[sub] == value`. */
  datatype Query =
    | FieldIs(field: string, value: Value)
    | SubFieldIs(field: string, sub: string, value: Value)

  /** A query that reaches a missing field or a non-mapping never matches. */
  predicate Holds(q: Query, d: Doc)
  {
    match q
    case FieldIs(f, v) => f in d && d[f] == v
    case SubFieldIs(f, s, v) => f in d && d[f].Obj? && s in d[f].fields && d[f].fields[s] == v
  }

  predicate Contains(t: seq<Doc>, q: Query)
  {
    exists i | 0 <= i < |t| :: Holds(q, t[i])
  }

  /** All documents matching `q`, in storage order. */
  function Search(t: seq<Doc>, q: Query): (r: seq<Doc>)
    ensures |r| <= |t|
    ensures forall d :: d in r <==> d in t && Holds(q, d)
  {
    if t == [] then []
    else if Holds(q, t[0]) then [t[0]] + Search(t[1..], q)
    else Search(t[1..], q)
  }

  /** The documents not matching `q`, in storage order. */
  function Remove(t: seq<Doc>, q: Query): (r: seq<Doc>)
    ensures |r| <= |t|
    ensures forall d :: d in r <==> d in t && !Holds(q, d)
  {
    if t == [] then []
    else if Holds(q, t[0]) then Remove(t[1..], q)
    else [t[0]] + Remove(t[1..], q)
  }

  /** Merges `u` into every document matching `q`; the others stay as they are. */
  function Apply(t: seq<Doc>, q: Query, u: Doc): (r: seq<Doc>)
    ensures |r| == |t|
    ensures forall i :: 0 <= i < |t| ==> r[i] == if Holds(q, t[i]) then t[i] + u else t[i]
  {
    if t == [] then []
    else [if Holds(q, t[0]) then t[0] + u else t[0]] + Apply(t[1..], q, u)
  }

  /** The first document matching `q`, if any. */
  function Get(t: seq<Doc>, q: Query): (r: Option<Doc>)
    ensures r.Some? <==> Contains(t, q)
    ensures r.Some? ==> r.value in t && Holds(q, r.value)
  {
    if t == [] then None
    else if Holds(q, t[0]) then Some(t[0])
    else
      var r := Get(t[1..], q);
      assert Contains(t, q) ==> Holds(q, t[0]) || Contains(t[1..], q) by {
        if Contains(t, q) {
          var i :| 0 <= i < |t| && Holds(q, t[i]);
          if i > 0 { assert t[1..][i - 1] == t[i]; }
        }
      }
      assert r.Some? ==> Contains(t, q) by {
        if r.Some? {
          var i :| 0 <= i < |t| - 1 && Holds(q, t[1..][i]);
          assert t[i + 1] == t[1..][i];
        }
      }
      r
  }

  /** The documents matching `q` and the ones not matching it make up the table exactly. */
  lemma {:induction false} SearchRemovePartition(t: seq<Doc>, q: Query)
    ensures multiset(Search(t, q)) + multiset(Remove(t, q)) == multiset(t)
  {
    if t != [] {
      SearchRemovePartition(t[1..], q);
      assert multiset(t) == multiset([t[0]]) + multiset(t[1..]) by {
        assert t == [t[0]] + t[1..];
      }
      if Holds(q, t[0]) {
        assert Search(t, q) == [t[0]] + Search(t[1..], q);
        assert Remove(t, q) == Remove(t[1..], q);
      } else {
        assert Search(t, q) == Search(t[1..], q);
        assert Remove(t, q) == [t[0]] + Remove(t[1..], q);
      }
    }
  }

  /** Removing twice with the same query removes nothing more. */
  lemma {:induction false} RemoveIdempotent(t: seq<Doc>, q: Query)
    ensures Remove(Remove(t, q), q) == Remove(t, q)
  {
    if t != [] {
      RemoveIdempotent(t[1..], q);
    }
  }

  /** A table with no match has nothing to search, get or remove. */
  lemma {:induction false} NoMatch(t: seq<Doc>, q: Query)
    requires forall d :: d in t ==> !Holds(q, d)
    ensures Search(t, q) == [] && Get(t, q) == None && Remove(t, q) == t
  {
    if t != [] {
      assert !Holds(q, t[0]) by { assert t[0] in t; }
      NoMatch(t[1..], q);
      assert t == [t[0]] + t[1..];
    }
  }

  /** The answer part of an operation's outcome. */
  function Answer<T>(s: Result<(T, Tables)>): Result<T>
  {
    match s
    case Success(p) => Success(p.0)
    case Failure(e) => Failure(e)
  }

  /** The store after an operation: a failed operation writes nothing. */
  function After<T>(s: Result<(T, Tables)>, before: Tables): Tables
  {
    if s.Success? then s.value.1 else before
  }

  /** The storage the whole engine reads and writes. */
  class Database {
    var tables: Tables

    constructor (initial: Tables)
      ensures tables == initial
    {
      tables := initial;
    }
  }
}
