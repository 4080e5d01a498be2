/** What a whole run promises about the compilation database it writes. */
module DatabaseProperties {
  import opened Wrappers
  import opened Json
  import opened CommandEdit
  import opened Database

  /**
   * A non-empty request writes output exactly when the document is an array
   * or an object and every unit in it validates.
   */
  lemma {:induction false} WritesIff(doc: Json, req: EditRequest)
    requires !req.IsEmpty()
    ensures Pipeline(doc, req).Written?
        <==> (doc.JArray? || doc.JObject?)
             && forall i :: 0 <= i < |Normalise(doc).value| ==> IsCompileUnit(Normalise(doc).value[i])
  {
  }

  /**
   * The output is always an array holding one rewritten unit per input unit,
   * in input order, each differing from its input only in the value of its
   * `command` member.
   */
  lemma {:induction false} OutputUnits(doc: Json, req: EditRequest)
    requires Pipeline(doc, req).Written?
    ensures var units, out := Normalise(doc).value, Pipeline(doc, req).output;
            && out.JArray?
            && |out.items| == |units|
            && forall i :: 0 <= i < |units| ==> OnlyCommandEdited(units[i], out.items[i], req)
  {
    var units := Normalise(doc).value;
    var out := Pipeline(doc, req).output;
    forall i | 0 <= i < |units|
      ensures OnlyCommandEdited(units[i], out.items[i], req)
    {
      assert RewriteUnit(units[i], req) == Success(out.items[i]);
    }
  }

  /** A bare object is processed as a database of one unit and written back as a one-element array. */
  lemma {:induction false} BareObjectBecomesSingleton(doc: Json, req: EditRequest)
    requires !req.IsEmpty() && doc.JObject? && IsCompileUnit(doc)
    ensures Pipeline(doc, req) == Written(JArray([RewriteUnit(doc, req).value]))
  {
    var r := RewriteAll([doc], req);
    assert r.Success? && |r.value| == 1;
    assert r.value == [r.value[0]];
  }

  /** A top-level string, number, boolean or null aborts the run. */
  lemma {:induction false} MalformedTopLevelAborts(doc: Json, req: EditRequest)
    requires !req.IsEmpty() && !doc.JArray? && !doc.JObject?
    ensures Pipeline(doc, req) == Aborted(MalformedDatabase)
  {
  }

  /**
   * An aborted run over a well-shaped document reports the error of the
   * first unit, in order, that fails validation.
   */
  lemma {:induction false} AbortNamesFirstBadUnit(doc: Json, req: EditRequest)
    requires Pipeline(doc, req).Aborted? && (doc.JArray? || doc.JObject?)
    ensures var units := Normalise(doc).value;
            exists i :: FirstBad(units, i) && Pipeline(doc, req).error == Validate(units[i]).error
  {
  }

  /**
   * A unit with a string `file` but no `command` aborts the whole run with
   * `MissingField("command")` when every unit before it is valid.
   */
  lemma {:induction false} MissingCommandAborts(doc: Json, req: EditRequest, i: nat)
    requires !req.IsEmpty() && doc.JArray? && i < |doc.items|
    requires forall j :: 0 <= j < i ==> IsCompileUnit(doc.items[j])
    requires doc.items[i].JObject? && StringField(doc.items[i].fields, "file")
    requires !HasKey(doc.items[i].fields, "command")
    ensures Pipeline(doc, req) == Aborted(MissingField("command"))
  {
    assert FirstBad(doc.items, i);
    RewriteAllFailsAt(doc.items, req, i);
  }

  /** Editing only the command keeps a unit a valid compile unit. */
  lemma {:induction false} EditedUnitStillValid(before: Json, after: Json, req: EditRequest)
    requires IsCompileUnit(before) && OnlyCommandEdited(before, after, req)
    ensures IsCompileUnit(after)
  {
    var f: nat :| KeyAt(before.fields, "file", f) && before.fields[f].1.JString?;
    var c: nat :| KeyAt(before.fields, "command", c) && before.fields[c].1.JString?;
    assert !KeyAt(before.fields, "command", f);
    assert KeyAt(after.fields, "file", f);
    assert KeyAt(after.fields, "command", c);
  }

  /**
   * The written database, read back, is accepted again: it normalises to
   * the written units and each of them validates.
   */
  lemma {:induction false} OutputReadsBack(doc: Json, req: EditRequest)
    requires Pipeline(doc, req).Written?
    ensures var out := Pipeline(doc, req).output;
            && Normalise(out) == Success(out.items)
            && forall i :: 0 <= i < |out.items| ==> IsCompileUnit(out.items[i])
  {
    var units := Normalise(doc).value;
    var out := Pipeline(doc, req).output;
    OutputUnits(doc, req);
    forall i | 0 <= i < |out.items|
      ensures IsCompileUnit(out.items[i])
    {
      EditedUnitStillValid(units[i], out.items[i], req);
    }
  }
}
