/**
 * The goal routes' slug handling: the uniqueness loop shared by create,
 * PATCH and the public toggle, and the statements those handlers send.
 */
module Goals {
  import opened Wrappers
  import opened Text

  // ---------------------------------------------------------------------
  // Request values, stored rows and the existence query
  // ---------------------------------------------------------------------

  /** A JSON value of a request body, as far as the handlers look at it. */
  datatype Value = Str(s: string) | Num(n: int) | Bool(b: bool) | Null

  /** JavaScript truthiness: `""`, `0`, `false` and `null` are falsy. */
  predicate Truthy(v: Value) {
    match v
    case Str(s) => s != ""
    case Num(n) => n != 0
    case Bool(b) => b
    case Null => false
  }

  /** The columns of a stored goal that the slug query reads. */
  datatype GoalRow = GoalRow(id: int, username: string, slug: Option<string>)

  /**
   * Which rows the existence query considers: on create the user's own
   * goals (`username = ?`), on PATCH and toggle every other goal (`id != ?`).
   */
  datatype Scope = OwnedBy(username: string) | OtherThan(id: int)

  predicate InScope(row: GoalRow, scope: Scope) {
    match scope
    case OwnedBy(username) => row.username == username
    case OtherThan(id) => row.id != id
  }

  /** The existence query: the rows in scope whose slug is `slug`. */
  function Matches(rows: seq<GoalRow>, scope: Scope, slug: string): (r: seq<GoalRow>)
    ensures forall x :: x in r ==> x in rows && InScope(x, scope) && x.slug == Some(slug)
  {
    if rows == [] then []
    else
      (if InScope(rows[0], scope) && rows[0].slug == Some(slug) then [rows[0]] else [])
      + Matches(rows[1..], scope, slug)
  }

  /** The slugs taken in scope; a row without a slug takes none (`NULL = ?` never holds). */
  function Taken(rows: seq<GoalRow>, scope: Scope): set<string> {
    if rows == [] then {}
    else
      (if InScope(rows[0], scope) && rows[0].slug.Some? then {rows[0].slug.value} else {})
      + Taken(rows[1..], scope)
  }

  /** A slug is taken exactly when some row in scope carries it. */
  lemma {:induction false} TakenMembers(rows: seq<GoalRow>, scope: Scope, slug: string)
    ensures slug in Taken(rows, scope)
      <==> exists r :: r in rows && InScope(r, scope) && r.slug == Some(slug)
  {
    if rows != [] {
      TakenMembers(rows[1..], scope, slug);
      assert forall r :: r in rows <==> r == rows[0] || r in rows[1..];
    }
  }

  /** The query returns a row exactly when the slug is taken. */
  lemma {:induction false} MatchesIffTaken(rows: seq<GoalRow>, scope: Scope, slug: string)
    ensures |Matches(rows, scope, slug)| > 0 <==> slug in Taken(rows, scope)
  {
    if rows != [] {
      MatchesIffTaken(rows[1..], scope, slug);
    }
  }

  // ---------------------------------------------------------------------
  // Candidates and the first free one
  // ---------------------------------------------------------------------

  /** The candidate tried after `n` taken ones: `base`, then `` `${base}-${n}` ``. */
  function Candidate(base: string, n: nat): string {
    if n == 0 then base else base + "-" + DecimalString(n)
  }

  /** Different suffixes give different candidates. */
  lemma CandidateInjective(base: string, a: nat, b: nat)
    requires Candidate(base, a) == Candidate(base, b)
    ensures a == b
  {
    if a > 0 && b > 0 {
      var ca, cb := Candidate(base, a), Candidate(base, b);
      assert ca[|base| + 1..] == DecimalString(a);
      assert cb[|base| + 1..] == DecimalString(b);
      DecimalStringInjective(a, b);
    }
  }

  /** Every candidate before the `n`-th is taken. */
  predicate AllTakenBefore(base: string, taken: set<string>, n: nat) {
    forall k: nat :: k < n ==> Candidate(base, k) in taken
  }

  /**
   * `slug` is what the loop must find: a candidate that is free while all
   * candidates before it are taken.
   */
  ghost predicate FirstFree(base: string, taken: set<string>, slug: string) {
    slug !in taken && exists n: nat :: slug == Candidate(base, n) && AllTakenBefore(base, taken, n)
  }

  /** The first `n` candidates. */
  function FirstCandidates(base: string, n: nat): set<string> {
    if n == 0 then {} else FirstCandidates(base, n - 1) + {Candidate(base, n - 1)}
  }

  lemma {:induction false} FirstCandidatesCount(base: string, n: nat)
    ensures |FirstCandidates(base, n)| == n
    ensures forall s :: s in FirstCandidates(base, n) ==> exists k: nat :: k < n && s == Candidate(base, k)
  {
    if n > 0 {
      FirstCandidatesCount(base, n - 1);
      if Candidate(base, n - 1) in FirstCandidates(base, n - 1) {
        var k: nat :| k < n - 1 && Candidate(base, n - 1) == Candidate(base, k);
        CandidateInjective(base, n - 1, k);
      }
    }
  }

  /** `n` taken candidates need at least `n` taken slugs: the loop cannot run forever. */
  lemma TakenBound(base: string, taken: set<string>, n: nat)
    requires AllTakenBefore(base, taken, n)
    ensures n <= |taken|
  {
    FirstCandidatesCount(base, n);
    assert FirstCandidates(base, n) <= taken;
    SubsetSize(FirstCandidates(base, n), taken);
  }

  lemma SubsetSize(a: set<string>, b: set<string>)
    requires a <= b
    ensures |a| <= |b|
  {
    assert b == a + (b - a);
  }

  /** There is only one first free candidate. */
  lemma FirstFreeUnique(base: string, taken: set<string>, a: string, b: string)
    requires FirstFree(base, taken, a) && FirstFree(base, taken, b)
    ensures a == b
  {
    var na: nat :| a == Candidate(base, na) && AllTakenBefore(base, taken, na);
    var nb: nat :| b == Candidate(base, nb) && AllTakenBefore(base, taken, nb);
  }

  /** A free base is kept as it is. */
  lemma FreeBaseKept(base: string, taken: set<string>, slug: string)
    requires base !in taken && FirstFree(base, taken, slug)
    ensures slug == base
  {
    var n: nat :| slug == Candidate(base, n) && AllTakenBefore(base, taken, n);
    if n > 0 {
      BaseTakenFirst(base, taken, n);
    }
  }

  lemma BaseTakenFirst(base: string, taken: set<string>, n: nat)
    requires n > 0 && AllTakenBefore(base, taken, n)
    ensures base in taken
  {
    assert Candidate(base, 0) == base;
  }

  /** A taken base gets a numeric suffix from 1 on. */
  lemma TakenBaseSuffixed(base: string, taken: set<string>, slug: string)
    requires base in taken && FirstFree(base, taken, slug)
    ensures exists n: nat :: n >= 1 && slug == base + "-" + DecimalString(n)
  {
    var n: nat :| slug == Candidate(base, n) && AllTakenBefore(base, taken, n);
  }

  /** With `run` and `run-1` taken the loop settles on `run-2`. */
  lemma RunExample(taken: set<string>)
    requires taken == {"run", "run-1"}
    ensures FirstFree("run", taken, "run-2")
  {
    assert DecimalString(1) == "1";
    assert DecimalString(2) == "2";
    assert Candidate("run", 1) == "run-1";
    assert Candidate("run", 2) == "run-2";
    assert AllTakenBefore("run", taken, 2);
  }

  /**
   * The uniqueness loop: while the existence query returns a row, the next
   * candidate is the base, a dash and the suffix, which then goes up by one.
   * It tries `base`, `base-1`, `base-2`, … and returns the first candidate
   * no row in scope carries.
   */
  method UniqueSlug(base: string, rows: seq<GoalRow>, scope: Scope) returns (uniqueSlug: string)
    ensures uniqueSlug !in Taken(rows, scope)
    ensures exists n: nat :: uniqueSlug == Candidate(base, n) && AllTakenBefore(base, Taken(rows, scope), n)
  {
    ghost var taken := Taken(rows, scope);
    uniqueSlug := base;
    var suffix := 1;
    var existing := Matches(rows, scope, uniqueSlug);
    MatchesIffTaken(rows, scope, uniqueSlug);
    while |existing| > 0
      invariant suffix >= 1
      invariant uniqueSlug == Candidate(base, suffix - 1)
      invariant |existing| > 0 <==> uniqueSlug in taken
      invariant AllTakenBefore(base, taken, suffix - 1)
      invariant suffix - 1 <= |taken|
      decreases |taken| - (suffix - 1)
    {
      assert AllTakenBefore(base, taken, suffix);
      TakenBound(base, taken, suffix);
      uniqueSlug := base + "-" + DecimalString(suffix);
      suffix := suffix + 1;
      existing := Matches(rows, scope, uniqueSlug);
      MatchesIffTaken(rows, scope, uniqueSlug);
    }
  }

  // ---------------------------------------------------------------------
  // The handlers
  // ---------------------------------------------------------------------

  /** What a handler does: answer 400, fail with 500, or send one statement with its parameters. */
  datatype Outcome = BadRequest(error: string) | ServerError | Query(sql: string, params: seq<Value>)

  /** The body fields of a create request; `None` is an absent field. */
  datatype CreateBody = CreateBody(
    username: Option<string>,
    title: Option<string>,
    description: Option<string>,
    category: Option<string>,
    timeframe: Option<string>,
    motivation: Option<string>)

  predicate Present(field: Option<string>) {
    field.Some? && field.value != ""
  }

  /** An optional text field, or the empty text when it is absent or empty. */
  function OrEmpty(field: Option<string>): string {
    if field.Some? then field.value else ""
  }

  const InsertGoalSql: string :=
    "INSERT INTO goals \n"
    + "        (username, title, description, category, timeframe, motivation, slug, public, created_at) \n"
    + "       VALUES (?, ?, ?, ?, ?, ?, ?, 0, NOW())"

  /** The base slug on create: the slugified title, or `goal` when that is empty. */
  function CreateBase(slugified: string): (base: string)
    ensures base != ""
    ensures slugified != "" ==> base == slugified
    ensures slugified == "" ==> base == "goal"
  {
    if slugified != "" then slugified else "goal"
  }

  /**
   * `POST /`: 400 when a required field is missing; otherwise the INSERT
   * with the first free slug among the user's own goals.
   */
  method CreateGoal(slugify: string -> string, body: CreateBody, rows: seq<GoalRow>) returns (outcome: Outcome)
    ensures !(Present(body.username) && Present(body.title) && Present(body.category) && Present(body.timeframe))
      ==> outcome == BadRequest("Missing fields")
    ensures Present(body.username) && Present(body.title) && Present(body.category) && Present(body.timeframe)
      ==> && outcome.Query? && outcome.sql == InsertGoalSql && |outcome.params| == 7
          && outcome.params[..6] == [Str(body.username.value), Str(body.title.value), Str(OrEmpty(body.description)),
                                     Str(body.category.value), Str(body.timeframe.value), Str(OrEmpty(body.motivation))]
          && outcome.params[6].Str?
          && FirstFree(CreateBase(slugify(body.title.value)), Taken(rows, OwnedBy(body.username.value)), outcome.params[6].s)
  {
    if !(Present(body.username) && Present(body.title) && Present(body.category) && Present(body.timeframe)) {
      return BadRequest("Missing fields");
    }
    var baseSlug := CreateBase(slugify(body.title.value));
    var uniqueSlug := UniqueSlug(baseSlug, rows, OwnedBy(body.username.value));
    outcome := Query(InsertGoalSql, [
      Str(body.username.value),
      Str(body.title.value),
      Str(OrEmpty(body.description)),
      Str(body.category.value),
      Str(body.timeframe.value),
      Str(OrEmpty(body.motivation)),
      Str(uniqueSlug)
    ]);
  }

  /** A patch body: its keys, in `Object.keys` order, with their values. */
  predicate DistinctKeys(patch: seq<(string, Value)>) {
    forall i, j :: 0 <= i < j < |patch| ==> patch[i].0 != patch[j].0
  }

  function Keys(patch: seq<(string, Value)>): (keys: seq<string>)
    ensures |keys| == |patch| && forall i :: 0 <= i < |patch| ==> keys[i] == patch[i].0
  {
    if patch == [] then [] else [patch[0].0] + Keys(patch[1..])
  }

  function Values(patch: seq<(string, Value)>): (values: seq<Value>)
    ensures |values| == |patch| && forall i :: 0 <= i < |patch| ==> values[i] == patch[i].1
  {
    if patch == [] then [] else [patch[0].1] + Values(patch[1..])
  }

  /** The position of `key` in the patch, if it is one of its keys. */
  function IndexOf(patch: seq<(string, Value)>, key: string): (i: Option<nat>)
    ensures i.Some? ==> i.value < |patch| && patch[i.value].0 == key
    ensures i.None? ==> forall k :: 0 <= k < |patch| ==> patch[k].0 != key
  {
    if patch == [] then None
    else if patch[0].0 == key then Some(0)
    else
      var rest := IndexOf(patch[1..], key);
      if rest.Some? then Some(rest.value + 1) else None
  }

  /** One assignment per field: the field name followed by ` = ?`. */
  function Assignments(fields: seq<string>): (r: seq<string>)
    ensures |r| == |fields| && forall i :: 0 <= i < |fields| ==> r[i] == fields[i] + " = ?"
  {
    if fields == [] then [] else [fields[0] + " = ?"] + Assignments(fields[1..])
  }

  function SetClause(fields: seq<string>): string {
    Join(Assignments(fields), ", ")
  }

  function UpdateSql(fields: seq<string>): string {
    "UPDATE goals SET " + SetClause(fields) + " WHERE id = ?"
  }

  /** One more field appends `, f = ?` to the SET clause. */
  lemma SetClauseSnoc(fields: seq<string>, f: string)
    requires fields != []
    ensures SetClause(fields + [f]) == SetClause(fields) + ", " + f + " = ?"
  {
    assert Assignments(fields + [f]) == Assignments(fields) + [f + " = ?"];
    JoinSnoc(Assignments(fields), f + " = ?", ", ");
  }

  /** The placeholders of the separator and of one assignment's tail. */
  lemma AssignmentPlaceholders()
    ensures Count(", ", '?') == 0 && Count(" = ?", '?') == 1
  {
    assert '?' !in ", ";
    assert " = ?" == " = " + ['?'];
    CountSingle(" = ", '?');
  }

  /** The placeholders of the text around the SET clause. */
  lemma StatementPlaceholders()
    ensures Count("UPDATE goals SET ", '?') == 0 && Count(" WHERE id = ?", '?') == 1
  {
    assert '?' !in "UPDATE goals SET ";
    assert " WHERE id = ?" == " WHERE id = " + ['?'];
    CountSingle(" WHERE id = ", '?');
  }

  /** The `?` characters that the field names themselves contain. */
  function KeyMarks(fields: seq<string>): (n: nat)
    ensures n == 0 <==> forall i :: 0 <= i < |fields| ==> '?' !in fields[i]
  {
    if fields == [] then 0
    else KeyMarks(fields[..|fields| - 1]) + Count(fields[|fields| - 1], '?')
  }

  /** Appending a separator, a field and a one-placeholder tail adds one placeholder and the field's own. */
  lemma CountStep(prefix: string, sep: string, f: string, tail: string)
    requires Count(sep, '?') == 0 && Count(tail, '?') == 1
    ensures Count(prefix + sep + f + tail, '?') == Count(prefix, '?') + 1 + Count(f, '?')
  {
    CountConcat(prefix + sep + f, tail, '?');
    CountConcat(prefix + sep, f, '?');
    CountConcat(prefix, sep, '?');
  }

  /**
   * The SET clause holds one placeholder per field plus every `?` inside
   * the field names, so exactly one per field when no name contains `?`.
   */
  lemma {:induction false} SetClausePlaceholders(fields: seq<string>)
    ensures Count(SetClause(fields), '?') == |fields| + KeyMarks(fields)
    ensures (forall i :: 0 <= i < |fields| ==> '?' !in fields[i]) ==> Count(SetClause(fields), '?') == |fields|
  {
    AssignmentPlaceholders();
    if |fields| == 1 {
      assert SetClause(fields) == fields[0] + " = ?";
      assert fields[..0] == [];
      CountConcat(fields[0], " = ?", '?');
    } else if |fields| > 1 {
      var init, f := fields[..|fields| - 1], fields[|fields| - 1];
      assert fields == init + [f];
      SetClausePlaceholders(init);
      SetClauseSnoc(init, f);
      CountStep(SetClause(init), ", ", f, " = ?");
    }
  }

  /**
   * The UPDATE holds one placeholder per field, one for the id and every
   * `?` inside the field names: as many as it has parameters exactly when
   * no field name contains `?`.
   */
  lemma UpdatePlaceholders(fields: seq<string>)
    ensures Count(UpdateSql(fields), '?') == |fields| + 1 + KeyMarks(fields)
    ensures Count(UpdateSql(fields), '?') == |fields| + 1 <==> forall i :: 0 <= i < |fields| ==> '?' !in fields[i]
  {
    StatementPlaceholders();
    SetClausePlaceholders(fields);
    CountConcat("UPDATE goals SET " + SetClause(fields), " WHERE id = ?", '?');
    CountConcat("UPDATE goals SET ", SetClause(fields), '?');
  }

  /**
   * `PATCH /:id`: 400 for an empty patch; a truthy `slug` is replaced by the
   * first free candidate from `slugify(slug)` among the other goals (a
   * non-string one makes `slugify` throw); then the UPDATE with one
   * `f = ?` per key and the values followed by the id.
   */
  method PatchGoal(slugify: string -> string, id: int, patch: seq<(string, Value)>, rows: seq<GoalRow>)
    returns (outcome: Outcome)
    requires DistinctKeys(patch)
    ensures patch == [] ==> outcome == BadRequest("No fields to update")
    ensures patch != [] && (IndexOf(patch, "slug").None? || !Truthy(patch[IndexOf(patch, "slug").value].1))
      ==> outcome == Query(UpdateSql(Keys(patch)), Values(patch) + [Num(id)])
    ensures patch != [] && IndexOf(patch, "slug").Some?
      ==> var i := IndexOf(patch, "slug").value;
          var v := patch[i].1;
          && (Truthy(v) && !v.Str? ==> outcome == ServerError)
          && (Truthy(v) && v.Str? ==>
                && outcome.Query? && outcome.sql == UpdateSql(Keys(patch))
                && |outcome.params| == |patch| + 1 && outcome.params[|patch|] == Num(id)
                && (forall k :: 0 <= k < |patch| && k != i ==> outcome.params[k] == patch[k].1)
                && outcome.params[i].Str?
                && FirstFree(slugify(v.s), Taken(rows, OtherThan(id)), outcome.params[i].s))
  {
    if |patch| == 0 {
      return BadRequest("No fields to update");
    }
    var p := patch;
    var slugAt := IndexOf(patch, "slug");
    if slugAt.Some? && Truthy(patch[slugAt.value].1) {
      var v := patch[slugAt.value].1;
      if !v.Str? {
        return ServerError;
      }
      var baseSlug := slugify(v.s);
      var uniqueSlug := UniqueSlug(baseSlug, rows, OtherThan(id));
      p := p[slugAt.value := ("slug", Str(uniqueSlug))];
      assert Keys(p) == Keys(patch);
    }
    var fields := Keys(p);
    var values := Values(p);
    outcome := Query(UpdateSql(fields), values + [Num(id)]);
  }

  const TogglePublicSql: string := "UPDATE goals SET public = ?, slug = ? WHERE id = ?"

  /**
   * `PATCH /:id/public`: 400 unless `public` is a boolean; the slug stored is
   * the given slug when truthy and null otherwise, replaced by the first free candidate from
   * `slugify(slug)` among the other goals only when the goal is made public
   * and a slug is given.
   */
  method TogglePublic(slugify: string -> string, id: int, isPublic: Value, slug: Value, rows: seq<GoalRow>)
    returns (outcome: Outcome)
    ensures !isPublic.Bool? ==> outcome == BadRequest("`public` must be true or false")
    ensures isPublic.Bool? && !(isPublic.b && Truthy(slug))
      ==> outcome == Query(TogglePublicSql, [Num(if isPublic.b then 1 else 0), if Truthy(slug) then slug else Null, Num(id)])
    ensures isPublic == Bool(true) && Truthy(slug) && !slug.Str? ==> outcome == ServerError
    ensures isPublic == Bool(true) && Truthy(slug) && slug.Str?
      ==> && outcome.Query? && outcome.sql == TogglePublicSql && |outcome.params| == 3
          && outcome.params[0] == Num(1) && outcome.params[2] == Num(id)
          && outcome.params[1].Str?
          && FirstFree(slugify(slug.s), Taken(rows, OtherThan(id)), outcome.params[1].s)
  {
    if !isPublic.Bool? {
      return BadRequest("`public` must be true or false");
    }
    var slugToUse := if Truthy(slug) then slug else Null;
    if isPublic.b && Truthy(slugToUse) {
      if !slugToUse.Str? {
        return ServerError;
      }
      var baseSlug := slugify(slugToUse.s);
      var uniqueSlug := UniqueSlug(baseSlug, rows, OtherThan(id));
      slugToUse := Str(uniqueSlug);
    }
    outcome := Query(TogglePublicSql, [Num(if isPublic.b then 1 else 0), slugToUse, Num(id)]);
  }
}
