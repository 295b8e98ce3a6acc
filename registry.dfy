/**
 * The in-memory user registry of the service: a list of `{id, name}` records,
 * the front-to-back lookups the handlers make over it, and the lists the
 * three mutating handlers (append, rename, remove) leave behind.
 */
module Registry {
  import opened Wrappers

  /**
   * The `name` field of a record. A request body without a `name` field hands
   * the handlers JavaScript's `undefined`, which a rename stores as it is and
   * which a login lookup compares with `===` like any other value.
   */
  datatype Name = Text(value: string) | Missing

  /** One record of the list */
  datatype User = User(id: int, name: Name)

  /** What a lookup compares a record against with `===` */
  datatype Key =
    | ById(id: Option<int>)  // None: the route parameter parsed to NaN, equal to no id
    | ByName(name: Name)

  predicate Matches(u: User, k: Key) {
    match k
    case ById(id) => id.Some? && u.id == id.value
    case ByName(n) => u.name == n
  }

  /** The three records the list holds when the process starts */
  const Seed: seq<User> := [User(1, Text("Amir")), User(2, Text("John")), User(3, Text("Stacy"))]

  /** The record every append pushes, with its hard-coded id */
  const Added: User := User(4, Text("Jane"))

  predicate HasMatch(s: seq<User>, k: Key) {
    exists i :: 0 <= i < |s| && Matches(s[i], k)
  }

  /** `i` is the position of the first record that `k` matches */
  predicate IsFirst(s: seq<User>, k: Key, i: int) {
    0 <= i < |s| && Matches(s[i], k) && forall j :: 0 <= j < i ==> !Matches(s[j], k)
  }

  /**
   * The scan that `find` and `findIndex` make: the position of the first
   * matching record, or None when no record matches.
   */
  function FirstIndex(s: seq<User>, k: Key): (r: Option<nat>)
    ensures r.Some? ==> IsFirst(s, k, r.value)
    ensures r.None? ==> !HasMatch(s, k)
  {
    if |s| == 0 then None
    else if Matches(s[0], k) then Some(0)
    else
      match FirstIndex(s[1..], k)
      case None =>
        assert forall j :: 1 <= j < |s| ==> s[j] == s[1..][j - 1];
        None
      case Some(i) => Some(i + 1)
  }

  /** No two records share an id */
  ghost predicate DistinctIds(s: seq<User>) {
    forall i, j :: 0 <= i < j < |s| ==> s[i].id != s[j].id
  }

  /** How many records carry id `x` */
  function Occurrences(s: seq<User>, x: int): nat {
    if |s| == 0 then 0
    else (if s[0].id == x then 1 else 0) + Occurrences(s[1..], x)
  }

  lemma {:induction false} OccurrencesOfConcat(a: seq<User>, b: seq<User>, x: int)
    ensures Occurrences(a + b, x) == Occurrences(a, x) + Occurrences(b, x)
  {
    if |a| == 0 {
      assert a + b == b;
    } else {
      assert (a + b)[1..] == a[1..] + b;
      OccurrencesOfConcat(a[1..], b, x);
    }
  }

  /** An id is absent exactly when it occurs zero times */
  lemma {:induction false} OccurrencesZeroIff(s: seq<User>, x: int)
    ensures Occurrences(s, x) == 0 <==> !HasMatch(s, ById(Some(x)))
  {
    if |s| > 0 {
      OccurrencesZeroIff(s[1..], x);
      if s[0].id != x && HasMatch(s, ById(Some(x))) {
        var i :| 0 <= i < |s| && Matches(s[i], ById(Some(x)));
        assert Matches(s[1..][i - 1], ById(Some(x)));
      }
    }
  }

  // ---------------------------------------------------------------------------
  // The lists the mutating handlers leave behind
  // ---------------------------------------------------------------------------

  /** `t` is `s` with the name of record `i` replaced and nothing else changed */
  ghost predicate NameReplacedAt(s: seq<User>, t: seq<User>, i: int, name: Name) {
    && 0 <= i < |s|
    && |t| == |s|
    && t[i] == User(s[i].id, name)
    && forall j :: 0 <= j < |s| && j != i ==> t[j] == s[j]
  }

  /** `t` is `s` with record `i` taken out and the others kept in their order */
  ghost predicate RemovedAt(s: seq<User>, t: seq<User>, i: int) {
    && 0 <= i < |s|
    && |t| == |s| - 1
    && (forall j :: 0 <= j < i ==> t[j] == s[j])
    && (forall j :: i <= j < |t| ==> t[j] == s[j + 1])
  }

  /** The list after `POST /users`: the fixed record pushed at the end */
  function Appended(s: seq<User>): (r: seq<User>)
    ensures |r| == |s| + 1 && r[|s|] == Added
    ensures forall j :: 0 <= j < |s| ==> r[j] == s[j]
  {
    s + [Added]
  }

  /**
   * The list after `PUT /users/:id`: the first record with that id renamed,
   * or None (a 404) when no record has it.
   */
  function Renamed(s: seq<User>, id: Option<int>, name: Name): (r: Option<seq<User>>)
    ensures r.None? <==> !HasMatch(s, ById(id))
    ensures forall i :: IsFirst(s, ById(id), i) ==> r.Some? && NameReplacedAt(s, r.value, i, name)
  {
    match FirstIndex(s, ById(id))
    case None => None
    case Some(i) => Some(s[i := s[i].(name := name)])
  }

  /**
   * The list after `DELETE /users/:id`: the first record with that id spliced
   * out, or None (a 404) when no record has it.
   */
  function Removed(s: seq<User>, id: Option<int>): (r: Option<seq<User>>)
    ensures r.None? <==> !HasMatch(s, ById(id))
    ensures forall i :: IsFirst(s, ById(id), i) ==> r.Some? && RemovedAt(s, r.value, i)
  {
    match FirstIndex(s, ById(id))
    case None => None
    case Some(i) => Some(s[..i] + s[i + 1..])
  }

  // ---------------------------------------------------------------------------
  // Ids across the mutations
  // ---------------------------------------------------------------------------

  lemma SeedHasDistinctIds()
    ensures DistinctIds(Seed)
    ensures Occurrences(Seed, Added.id) == 0
  {
  }

  /**
   * An append keeps the ids distinct exactly when no record holds id 4 yet:
   * the id is hard-coded, not generated.
   */
  lemma AppendDistinctIff(s: seq<User>)
    requires DistinctIds(s)
    ensures DistinctIds(Appended(s)) <==> !HasMatch(s, ById(Some(Added.id)))
  {
  }

  /** Every append adds one more record with id 4 */
  lemma AppendAddsOccurrence(s: seq<User>)
    ensures Occurrences(Appended(s), Added.id) == Occurrences(s, Added.id) + 1
  {
    OccurrencesOfConcat(s, [Added], Added.id);
  }

  /** Two appends in a row always leave two records with id 4 */
  lemma SecondAppendDuplicatesId(s: seq<User>)
    ensures !DistinctIds(Appended(Appended(s)))
    ensures Occurrences(Appended(Appended(s)), Added.id) == Occurrences(s, Added.id) + 2
  {
    var r := Appended(Appended(s));
    assert r[|s|].id == r[|s| + 1].id;
    AppendAddsOccurrence(s);
    AppendAddsOccurrence(Appended(s));
  }

  /** A rename keeps the length and every id in place, hence distinctness */
  lemma RenameKeepsIds(s: seq<User>, id: Option<int>, name: Name)
    requires Renamed(s, id, name).Some?
    ensures var t := Renamed(s, id, name).value;
      |t| == |s| && (forall j :: 0 <= j < |s| ==> t[j].id == s[j].id)
      && (DistinctIds(s) ==> DistinctIds(t))
  {
  }

  /** A removal keeps the ids of the remaining records distinct */
  lemma RemoveKeepsDistinctIds(s: seq<User>, id: Option<int>)
    requires Removed(s, id).Some? && DistinctIds(s)
    ensures DistinctIds(Removed(s, id).value)
  {
  }

  /** A removal takes away exactly one record with the id it was given */
  lemma RemoveTakesOneOccurrence(s: seq<User>, x: int)
    requires HasMatch(s, ById(Some(x)))
    ensures Removed(s, Some(x)).Some?
    ensures Occurrences(Removed(s, Some(x)).value, x) == Occurrences(s, x) - 1
  {
    var i := FirstIndex(s, ById(Some(x))).value;
    assert s == s[..i] + [s[i]] + s[i + 1..];
    OccurrencesOfConcat(s[..i] + [s[i]], s[i + 1..], x);
    OccurrencesOfConcat(s[..i], [s[i]], x);
    OccurrencesOfConcat(s[..i], s[i + 1..], x);
  }

  /**
   * Removing an id that exactly one record holds succeeds once; the same
   * removal then finds nothing.
   */
  lemma RemoveTwice(s: seq<User>, x: int)
    requires Occurrences(s, x) == 1
    ensures Removed(s, Some(x)).Some?
    ensures Removed(Removed(s, Some(x)).value, Some(x)).None?
  {
    OccurrencesZeroIff(s, x);
    RemoveTakesOneOccurrence(s, x);
    OccurrencesZeroIff(Removed(s, Some(x)).value, x);
  }
}
