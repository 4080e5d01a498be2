/**
 * The compilation-database driver of `main`: normalise the top-level shape,
 * validate each compile unit, rewrite its `command` string, and reassemble
 * the units as an array.
 */
module Database {
  import opened Wrappers
  import opened Json
  import opened CommandEdit

  /** The error kinds `main` can fail with once the document is decoded. */
  datatype Error =
    | MalformedDatabase
    | NotAnObject
    | MissingField(field: string)
    | WrongType(field: string)

  /**
   * The top-level shape: an array gives its elements, a bare object is a
   * database of one unit, anything else is malformed.  Reassembling the
   * units as an array gives back an array document unchanged and wraps a
   * bare object in a one-element array.
   */
  function Normalise(doc: Json): (r: Result<seq<Json>, Error>)
    ensures r.Failure? <==> !doc.JArray? && !doc.JObject?
    ensures r.Failure? ==> r.error == MalformedDatabase
    ensures r.Success? ==> JArray(r.value) == (if doc.JArray? then doc else JArray([doc]))
  {
    match doc
    case JArray(items) => Success(items)
    case JObject(_) => Success([doc])
    case _ => Failure(MalformedDatabase)
  }

  /** What validation extracts from a unit: its file name and its command. */
  datatype CommandRef = CommandRef(file: string, index: nat, command: string)

  /** A unit `main` accepts: an object whose `file` and `command` are strings. */
  ghost predicate IsCompileUnit(unit: Json)
  {
    unit.JObject? && StringField(unit.fields, "file") && StringField(unit.fields, "command")
  }

  /**
   * The `let ... else` chain: the unit must be an object, its `file` must be
   * present and a string, then its `command` must be present and a string;
   * the first check that fails names the error.
   */
  function Validate(unit: Json): (r: Result<CommandRef, Error>)
    ensures r.Success? <==> IsCompileUnit(unit)
    ensures !unit.JObject? ==> r == Failure(NotAnObject)
    ensures unit.JObject? && !HasKey(unit.fields, "file") ==> r == Failure(MissingField("file"))
    ensures unit.JObject? && HasKey(unit.fields, "file") && !StringField(unit.fields, "file")
            ==> r == Failure(WrongType("file"))
    ensures unit.JObject? && StringField(unit.fields, "file") && !HasKey(unit.fields, "command")
            ==> r == Failure(MissingField("command"))
    ensures unit.JObject? && StringField(unit.fields, "file") && HasKey(unit.fields, "command")
            && !StringField(unit.fields, "command")
            ==> r == Failure(WrongType("command"))
    ensures r.Success? ==> (KeyAt(unit.fields, "command", r.value.index)
                            && unit.fields[r.value.index].1 == JString(r.value.command))
    ensures r.Success? ==> exists f: nat :: KeyAt(unit.fields, "file", f)
                                         && unit.fields[f].1 == JString(r.value.file)
  {
    if !unit.JObject? then Failure(NotAnObject)
    else
      var fields := unit.fields;
      match Lookup(fields, "file")
      case None => Failure(MissingField("file"))
      case Some(f) =>
        if !fields[f].1.JString? then
          assert !StringField(fields, "file") by {
            forall i: nat | KeyAt(fields, "file", i) ensures !fields[i].1.JString? {
              KeyAtUnique(fields, "file", i, f);
            }
          }
          Failure(WrongType("file"))
        else
          match Lookup(fields, "command")
          case None => Failure(MissingField("command"))
          case Some(c) =>
            if !fields[c].1.JString? then
              assert !StringField(fields, "command") by {
                forall i: nat | KeyAt(fields, "command", i) ensures !fields[i].1.JString? {
                  KeyAtUnique(fields, "command", i, c);
                }
              }
              Failure(WrongType("command"))
            else
              Success(CommandRef(fields[f].1.str, c, fields[c].1.str))
  }

  /**
   * `after` is `before` with only the value of its `command` member
   * replaced by the edited command: same members, same names, same order.
   */
  ghost predicate OnlyCommandEdited(before: Json, after: Json, req: EditRequest)
  {
    && before.JObject? && after.JObject?
    && |after.fields| == |before.fields|
    && forall k :: 0 <= k < |before.fields| ==>
         && after.fields[k].0 == before.fields[k].0
         && if KeyAt(before.fields, "command", k) then
              before.fields[k].1.JString?
              && after.fields[k].1 == JString(EditedCommand(before.fields[k].1.str, req))
            else after.fields[k] == before.fields[k]
  }

  /** One compile unit: validated, then its command string edited in place. */
  function RewriteUnit(unit: Json, req: EditRequest): (r: Result<Json, Error>)
    ensures r.Success? <==> IsCompileUnit(unit)
    ensures r.Failure? ==> r.error == Validate(unit).error
    ensures r.Success? ==> OnlyCommandEdited(unit, r.value, req)
  {
    match Validate(unit)
    case Failure(e) => Failure(e)
    case Success(c) =>
      Success(JObject(unit.fields[c.index := ("command", JString(EditedCommand(c.command, req)))]))
  }

  /** `i` is the first unit, in order, that is not a compile unit. */
  ghost predicate FirstBad(units: seq<Json>, i: int)
  {
    0 <= i < |units| && !IsCompileUnit(units[i])
    && forall j :: 0 <= j < i ==> IsCompileUnit(units[j])
  }

  /**
   * Every unit in order; the first unit that fails validation aborts the
   * whole rewrite with its error.
   */
  function RewriteAll(units: seq<Json>, req: EditRequest): (r: Result<seq<Json>, Error>)
    ensures r.Success? <==> forall i :: 0 <= i < |units| ==> IsCompileUnit(units[i])
    ensures r.Success? ==> (|r.value| == |units|
                            && forall i :: 0 <= i < |units| ==> RewriteUnit(units[i], req) == Success(r.value[i]))
    ensures r.Failure? ==> exists i :: FirstBad(units, i) && r.error == Validate(units[i]).error
  {
    if units == [] then Success([])
    else match RewriteUnit(units[0], req)
      case Failure(e) =>
        assert FirstBad(units, 0);
        Failure(e)
      case Success(u) =>
        match RewriteAll(units[1..], req)
        case Failure(e) =>
          FirstBadShift(units, e, req);
          Failure(e)
        case Success(us) =>
          RewrittenCons(units, req, u, us);
          Success([u] + us)
  }

  /** A first bad unit of the tail, after a good head, is the first bad unit of the whole. */
  lemma FirstBadShift(units: seq<Json>, e: Error, req: EditRequest)
    requires units != [] && IsCompileUnit(units[0])
    requires exists i :: FirstBad(units[1..], i) && e == Validate(units[1..][i]).error
    ensures exists i :: FirstBad(units, i) && e == Validate(units[i]).error
  {
    var i :| FirstBad(units[1..], i) && e == Validate(units[1..][i]).error;
    assert units[i + 1] == units[1..][i];
    forall j | 0 <= j < i + 1
      ensures IsCompileUnit(units[j])
    {
      if j > 0 {
        assert units[j] == units[1..][j - 1];
      }
    }
    assert FirstBad(units, i + 1);
  }

  /** A rewritten head and a pointwise rewritten tail make a pointwise rewritten whole. */
  lemma RewrittenCons(units: seq<Json>, req: EditRequest, u: Json, us: seq<Json>)
    requires units != [] && RewriteUnit(units[0], req) == Success(u)
    requires |us| == |units| - 1
    requires forall i :: 0 <= i < |us| ==> RewriteUnit(units[1..][i], req) == Success(us[i])
    ensures forall i :: 0 <= i < |units| ==> RewriteUnit(units[i], req) == Success(([u] + us)[i])
  {
    forall i | 0 <= i < |units|
      ensures RewriteUnit(units[i], req) == Success(([u] + us)[i])
    {
      if i > 0 {
        var k := i - 1;
        assert units[1..][k] == units[i];
        assert RewriteUnit(units[1..][k], req) == Success(us[k]);
      }
    }
  }

  /** The first unit that fails validation decides the error of the whole rewrite. */
  lemma RewriteAllFailsAt(units: seq<Json>, req: EditRequest, i: nat)
    requires FirstBad(units, i)
    ensures RewriteAll(units, req) == Failure(Validate(units[i]).error)
  {
    var r := RewriteAll(units, req);
    assert r.Failure?;
    var bad :| FirstBad(units, bad) && r.error == Validate(units[bad]).error;
    assert bad == i;
  }

  /** Rewriting every unit successfully, one by one, is the whole rewrite. */
  lemma RewriteAllSucceeds(units: seq<Json>, req: EditRequest, out: seq<Json>)
    requires |out| == |units|
    requires forall k :: 0 <= k < |units| ==> RewriteUnit(units[k], req) == Success(out[k])
    ensures RewriteAll(units, req) == Success(out)
  {
    var r := RewriteAll(units, req);
    assert r.Success?;
    assert r.value == out;
  }

  /** The `iter_mut` loop of `main` over the normalised units. */
  method RewriteUnits(units: seq<Json>, req: EditRequest) returns (r: Result<seq<Json>, Error>)
    ensures r == RewriteAll(units, req)
  {
    var db := units;
    var i := 0;
    while i < |db|
      invariant 0 <= i <= |db| == |units|
      invariant forall k :: 0 <= k < i ==> RewriteUnit(units[k], req) == Success(db[k])
      invariant db[i..] == units[i..]
    {
      assert db[i] == units[i] by { assert db[i..][0] == units[i..][0]; }
      var checked := Validate(db[i]);
      if checked.Failure? {
        RewriteAllFailsAt(units, req, i);
        return Failure(checked.error);
      }
      var c := checked.value;
      var command := EditCommand(c.command, req);
      db := db[i := JObject(db[i].fields[c.index := ("command", JString(command))])];
      i := i + 1;
    }
    RewriteAllSucceeds(units, req, db);
    return Success(db);
  }

  /** What one run of the tool amounts to. */
  datatype RunResult =
    | NothingRequested
    | Written(output: Json)
    | Aborted(error: Error)

  /**
   * A run: an empty request stops before anything is read; otherwise the
   * document is normalised, every unit rewritten, and the units written out
   * as an array — or the run aborts, writing nothing.
   */
  function Pipeline(doc: Json, req: EditRequest): RunResult
  {
    if req.IsEmpty() then NothingRequested
    else match Normalise(doc)
      case Failure(e) => Aborted(e)
      case Success(units) =>
        match RewriteAll(units, req)
        case Failure(e) => Aborted(e)
        case Success(out) => Written(JArray(out))
  }

  /** `main` once the request and the decoded document are in hand. */
  method Run(doc: Json, req: EditRequest) returns (r: RunResult)
    ensures r == Pipeline(doc, req)
    ensures req.IsEmpty() ==> r == NothingRequested
  {
    if req.IsEmpty() {
      return NothingRequested;
    }
    var units: seq<Json>;
    match doc {
      case JArray(items) => units := items;
      case JObject(_) => units := [doc];
      case _ => return Aborted(MalformedDatabase);
    }
    var rewritten := RewriteUnits(units, req);
    match rewritten {
      case Failure(e) => r := Aborted(e);
      case Success(out) => r := Written(JArray(out));
    }
  }
}
