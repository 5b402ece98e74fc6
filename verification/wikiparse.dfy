/** `wikipedia_parse`: reads `{{macro | key = value | ...}}` templates out of a
    bibliography text, one field map per template, in source order. */
module WikiParse {
  import opened Wrappers
  import opened Text

  /** One bibliography record: lower-cased field name to value. */
  type Record = map<string, string>

  /** A `|`-segment without `=`: unpacking `row.split("=", 1)` into `k, v` fails. */
  datatype ParseError = MissingEquals

  lemma OccursInside(outer: string, i: nat, inner: string, needle: string, p: nat)
    requires i + |inner| <= |outer| && outer[i..i + |inner|] == inner
    requires OccursAt(inner, needle, p)
    ensures OccursAt(outer, needle, i + p)
  {
    forall t | 0 <= t < |needle|
      ensures outer[i + p + t] == needle[t]
    {
      assert inner[p + t] == inner[p..p + |needle|][t];
      assert outer[i + p + t] == outer[i..i + |inner|][p + t];
    }
  }

  /** `re.findall("{{(.*?)}}", data, re.DOTALL)`: the text between each `{{` and the
      first `}}` after it, scanning on after that `}}`. An opening `{{` with no
      closing `}}` after it ends the scan. No template body contains `}}`. */
  function Templates(data: string): (r: seq<string>)
    ensures forall k :: 0 <= k < |r| ==> !Contains(r[k], "}}")
    decreases |data|
  {
    match Find(data, "{{")
    case None => []
    case Some(i) =>
      match FindFrom(data, "}}", i + 2)
      case None => []
      case Some(j) =>
        var body := data[i + 2..j];
        assert !Contains(body, "}}") by {
          if Contains(body, "}}") {
            var p := Find(body, "}}").value;
            OccursInside(data, i + 2, body, "}}", p);
            assert false;
          }
        }
        [body] + Templates(data[j + 2..])
  }

  /** Writes template bodies back as `{{body}}` one after another. */
  function Unparse(bodies: seq<string>): string {
    if bodies == [] then "" else "{{" + bodies[0] + "}}" + Unparse(bodies[1..])
  }

  /** A body `Templates` can give back unchanged: no `}}` inside and no `}` at the end
      (which would pair with the closing braces). */
  predicate Reparsable(body: string) {
    !Contains(body, "}}") && (body == [] || body[|body| - 1] != '}')
  }

  lemma FindOpening(b: string, rest: string)
    ensures Find("{{" + b + "}}" + rest, "{{") == Some(0)
  {
    var data := "{{" + b + "}}" + rest;
    assert data[0..2] == "{{";
    assert OccursAt(data, "{{", 0);
  }

  lemma FindClosing(b: string, rest: string)
    requires Reparsable(b)
    ensures FindFrom("{{" + b + "}}" + rest, "}}", 2) == Some(2 + |b|)
  {
    var data := "{{" + b + "}}" + rest;
    assert OccursAt(data, "}}", 2 + |b|) by { assert data[2 + |b|..4 + |b|] == "}}"; }
    forall p | 2 <= p < 2 + |b|
      ensures !OccursAt(data, "}}", p)
    {
      if p + 2 <= 2 + |b| {
        assert data[p..p + 2] == b[p - 2..p];
        assert !OccursAt(b, "}}", p - 2);
      } else {
        assert data[p..p + 2][0] == data[p] == b[|b| - 1];
      }
    }
  }

  /** Templates written out by `Unparse` are read back by `Templates` unchanged. */
  lemma {:induction false} TemplatesRoundTrip(bodies: seq<string>)
    requires forall k :: 0 <= k < |bodies| ==> Reparsable(bodies[k])
    ensures Templates(Unparse(bodies)) == bodies
  {
    if bodies != [] {
      var b := bodies[0];
      var rest := Unparse(bodies[1..]);
      var data := Unparse(bodies);
      assert data == "{{" + b + "}}" + rest;
      FindOpening(b, rest);
      FindClosing(b, rest);
      assert data[2..2 + |b|] == b;
      assert data[4 + |b|..] == rest;
      TemplatesRoundTrip(bodies[1..]);
    }
  }

  /** The key/value pair a `|`-segment denotes: split the stripped segment at its
      first `=`; the key is the stripped, lower-cased left side and the value the
      stripped right side. `None` when there is no `=`. */
  function RowField(row: string): Option<(string, string)> {
    match SplitOnce(Strip(row), "=")
    case None => None
    case Some((k, v)) => Some((Lower(Strip(k)), Strip(v)))
  }

  /** A segment yields a field exactly when it contains `=`. */
  lemma RowFieldPresent(row: string)
    ensures RowField(row).Some? <==> '=' in row
  {
    ContainsChar(Strip(row), '=');
    StripKeeps(row, '=');
  }

  /** Field `j` is present and sets `key`. */
  predicate Sets(fields: seq<Option<(string, string)>>, j: int, key: string) {
    0 <= j < |fields| && fields[j].Some? && fields[j].value.0 == key
  }

  /** No field after position `j` sets the key field `j` sets. */
  predicate LastForKey(fields: seq<Option<(string, string)>>, j: int)
    requires 0 <= j < |fields| && fields[j].Some?
  {
    forall j' :: j < j' < |fields| ==> !Sets(fields, j', fields[j].value.0)
  }

  /** `m` is `entry` with the fields stored in order: it has the keys of `entry` and
      of the fields, each field that is last for its key holds, and keys no field
      sets keep their value from `entry`. */
  ghost predicate Stored(entry: Record, fields: seq<Option<(string, string)>>, m: Record) {
    && (forall key :: key in m <==> key in entry || exists j :: Sets(fields, j, key))
    && (forall j :: 0 <= j < |fields| && fields[j].Some? && LastForKey(fields, j) ==>
          fields[j].value.0 in m && m[fields[j].value.0] == fields[j].value.1)
    && (forall key :: key in entry && (forall j :: !Sets(fields, j, key)) ==> key in m && m[key] == entry[key])
  }

  /** Stores the fields into `entry` in order, a later key overwriting an earlier one;
      `None` as soon as one field is missing. */
  function AddFields(entry: Record, fields: seq<Option<(string, string)>>): (r: Option<Record>)
    ensures r.None? <==> exists j :: 0 <= j < |fields| && fields[j].None?
    ensures r.Some? ==> Stored(entry, fields, r.value)
    decreases |fields|
  {
    if fields == [] then Some(entry)
    else match fields[0]
      case None => None
      case Some((k, v)) =>
        var rest := fields[1..];
        var r := AddFields(entry[k := v], rest);
        assert forall j :: 1 <= j < |fields| ==> fields[j] == rest[j - 1];
        if r.Some? then
          StoredStep(entry, fields, r.value);
          r
        else r
  }

  /** Storing the first field and then the rest stores all of them. */
  lemma StoredStep(entry: Record, fields: seq<Option<(string, string)>>, m: Record)
    requires fields != [] && fields[0].Some?
    requires Stored(entry[fields[0].value.0 := fields[0].value.1], fields[1..], m)
    ensures Stored(entry, fields, m)
  {
    var (k, v) := fields[0].value;
    var rest := fields[1..];
    assert forall j, key :: 0 <= j ==> (Sets(rest, j, key) <==> Sets(fields, j + 1, key));
    assert Sets(fields, 0, k);
    forall key | exists j :: Sets(fields, j, key)
      ensures key in m
    {
      var j :| Sets(fields, j, key);
      if j > 0 { assert Sets(rest, j - 1, key); }
    }
    assert forall j :: 1 <= j < |fields| && fields[j].Some? && LastForKey(fields, j) ==> LastForKey(rest, j - 1);
  }

  /** One template body: the first `|`-segment is the `macroname`, every other
      segment a `key = value` field. */
  function ParseTemplate(body: string): Result<Record, ParseError> {
    var rows := Split(body, '|');
    match AddFields(map["macroname" := rows[0]], RowFields(rows[1..]))
    case None => Failure(MissingEquals)
    case Some(m) => Success(m)
  }

  /** A template fails to parse exactly when one of its segments after the first has
      no `=`. */
  lemma ParseTemplateFails(body: string)
    ensures ParseTemplate(body).Failure? <==> exists j :: 1 <= j < |Split(body, '|')| && '=' !in Split(body, '|')[j]
  {
    var rows := Split(body, '|');
    var fields := RowFields(rows[1..]);
    RowFieldsPresent(rows[1..]);
    if exists j :: 0 <= j < |fields| && fields[j].None? {
      var j :| 0 <= j < |fields| && fields[j].None?;
      assert rows[1..][j] == rows[j + 1];
    }
    if exists j :: 1 <= j < |rows| && '=' !in rows[j] {
      var j :| 1 <= j < |rows| && '=' !in rows[j];
      assert rows[1..][j - 1] == rows[j];
      assert fields[j - 1].None?;
    }
  }

  /** A record that parses has a `macroname`: the first segment, unless a field of
      that name overrides it. */
  lemma ParseTemplateNamed(body: string)
    requires ParseTemplate(body).Success?
    ensures "macroname" in ParseTemplate(body).value
    ensures var rows := Split(body, '|');
      (forall j :: !Sets(RowFields(rows[1..]), j, "macroname")) ==> ParseTemplate(body).value["macroname"] == rows[0]
  {
    var rows := Split(body, '|');
    AddFieldsEntry(map["macroname" := rows[0]], RowFields(rows[1..]), "macroname");
  }

  lemma AddFieldsEntry(entry: Record, fields: seq<Option<(string, string)>>, key: string)
    requires AddFields(entry, fields).Some? && key in entry
    ensures key in AddFields(entry, fields).value
    ensures (forall j :: !Sets(fields, j, key)) ==> AddFields(entry, fields).value[key] == entry[key]
  {
  }

  lemma RowFieldsPresent(rows: seq<string>)
    ensures forall j :: 0 <= j < |rows| ==> (RowFields(rows)[j].Some? <==> '=' in rows[j])
  {
    forall j | 0 <= j < |rows| ensures RowFields(rows)[j].Some? <==> '=' in rows[j] {
      RowFieldPresent(rows[j]);
    }
  }

  /** The field of every segment, in order. */
  function RowFields(rows: seq<string>): (r: seq<Option<(string, string)>>)
    ensures |r| == |rows|
    ensures forall j :: 0 <= j < |rows| ==> r[j] == RowField(rows[j])
  {
    if rows == [] then [] else [RowField(rows[0])] + RowFields(rows[1..])
  }

  /** `list(wikipedia_parse(data))`: one record per template in source order, or the
      error of the first malformed template (see `ParseAll`). */
  function WikipediaParse(data: string): Result<seq<Record>, ParseError> {
    ParseAll(Templates(data), ParseTemplate)
  }

  /** Applies `parse` to each body in order, stopping at the first failure. */
  function ParseAll<T, E>(bodies: seq<string>, parse: string -> Result<T, E>): (r: Result<seq<T>, E>)
    ensures r.Success? <==> forall k :: 0 <= k < |bodies| ==> parse(bodies[k]).Success?
    ensures r.Success? ==> |r.value| == |bodies|
    ensures r.Success? ==> forall k :: 0 <= k < |r.value| ==> parse(bodies[k]) == Success(r.value[k])
  {
    if bodies == [] then Success([])
    else match parse(bodies[0])
      case Failure(e) => Failure(e)
      case Success(rec) =>
        match ParseAll(bodies[1..], parse)
        case Failure(e) =>
          assert forall k :: 1 <= k < |bodies| ==> bodies[1..][k - 1] == bodies[k];
          Failure(e)
        case Success(recs) =>
          assert forall k :: 1 <= k < |bodies| ==> bodies[1..][k - 1] == bodies[k];
          Success([rec] + recs)
  }
}
