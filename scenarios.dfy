/**
  Worked examples of the walk on a small service configuration: a port, a service name and
  a database block, filled by a loader that leaves placeholder-free text unchanged and
  reads decimal numerals as integers.
 */
module Scenarios {
  import opened Wrappers
  import opened FieldErrors
  import opened Shapes
  import opened Reconciliation
  import Strings

  /** Placeholder-free text loads as itself. */
  function PlainString(s: string): Loaded<string> {
    Loaded(s, None)
  }

  predicate Numeral(s: string) {
    s != [] && forall i | 0 <= i < |s| :: Strings.IsDigit(s[i])
  }

  /** A numeral loads as the number it denotes; any other text fails to load. */
  function PlainInt(s: string): Loaded<int> {
    if Numeral(s) then Loaded(Strings.DecimalValue(s), None) else Loaded(0, Some("invalid syntax"))
  }

  /** A loader without placeholders. */
  function PlainLoader(): Loader {
    Loader(PlainString, PlainInt)
  }

  /** The typed service configuration before the walk. */
  function ServiceConfig(): seq<Field> {
    [ Field("Port", IntValue(Int, 0)),
      Field("ServiceName", StringValue("")),
      Field("DB", StructValue([Field("Host", StringValue("")), Field("Port", IntValue(Int, 0))])) ]
  }

  /** The decoded all-string mirror with the given database port text. */
  function ServiceText(dbPort: string): seq<Field> {
    [ Field("Port", StringValue("8080")),
      Field("ServiceName", StringValue("api")),
      Field("DB", StructValue([Field("Host", StringValue("localhost")), Field("Port", StringValue(dbPort))])) ]
  }

  /** "8080" loads as the integer 8080. */
  lemma LoadsPort()
    ensures PlainInt("8080") == Loaded(8080, None)
  {
    var s := "8080";
    assert Numeral(s);
    assert s[..3] == "808" && s[..3][..2] == "80" && s[..3][..2][..1] == "8" && s[..3][..2][..1][..0] == "";
    assert Strings.DecimalValue("8") == 8;
    assert Strings.DecimalValue("80") == 80;
    assert Strings.DecimalValue("808") == 808;
  }

  /** "5432" loads as the integer 5432. */
  lemma LoadsDbPort()
    ensures PlainInt("5432") == Loaded(5432, None)
  {
    var s := "5432";
    assert Numeral(s);
    assert s[..3] == "543" && s[..3][..2] == "54" && s[..3][..2][..1] == "5" && s[..3][..2][..1][..0] == "";
    assert Strings.DecimalValue("5") == 5;
    assert Strings.DecimalValue("54") == 54;
    assert Strings.DecimalValue("543") == 543;
  }

  /** The database block's two fields, walked, given what its port comes to. */
  lemma DbFields(p: Field, q: Field, port: Field, errors: seq<FieldError>)
    requires ReconcileField(p, q, PlainLoader()) == Completed(port, errors)
    ensures Reconcile([Field("Host", StringValue("localhost")), p], [Field("Host", StringValue("")), q], PlainLoader())
         == Completed([Field("Host", StringValue("localhost")), port], errors)
  {
    var l := PlainLoader();
    var hostSrc := Field("Host", StringValue("localhost"));
    var hostDst := Field("Host", StringValue(""));
    assert ReconcileField(hostSrc, hostDst, l) == Completed(hostSrc, []);
    assert Walk([], [], l) == Completed([], []);
    WalkCons(p, q, [], [], l);
    assert [p] + [] == [p] && [q] + [] == [q];
    assert [port] + [] == [port] && errors + [] == errors;
    WalkCons(hostSrc, hostDst, [p], [q], l);
    assert [hostSrc] + [p] == [hostSrc, p] && [hostDst] + [q] == [hostDst, q];
    assert [hostSrc] + [port] == [hostSrc, port] && [] + errors == errors;
  }

  /** The database block, walked, given what its port comes to. */
  lemma DbBlock(p: Field, port: Field, errors: seq<FieldError>)
    requires ReconcileField(p, Field("Port", IntValue(Int, 0)), PlainLoader()) == Completed(port, errors)
    ensures ReconcileField(Field("DB", StructValue([Field("Host", StringValue("localhost")), p])), ServiceConfig()[2], PlainLoader())
         == Completed(Field("DB", StructValue([Field("Host", StringValue("localhost")), port])), errors)
  {
    DbFields(p, Field("Port", IntValue(Int, 0)), port, errors);
  }

  /** The two top-level leaves, walked. */
  lemma TopLeaves(dbPort: string)
    ensures ReconcileField(ServiceText(dbPort)[0], ServiceConfig()[0], PlainLoader()) == Completed(Field("Port", IntValue(Int, 8080)), [])
    ensures ReconcileField(ServiceText(dbPort)[1], ServiceConfig()[1], PlainLoader()) == Completed(Field("ServiceName", StringValue("api")), [])
  {
    LoadsPort();
    assert ServiceText(dbPort)[0] == Field("Port", StringValue("8080")) && ServiceConfig()[0] == Field("Port", IntValue(Int, 0));
    assert ServiceText(dbPort)[1] == Field("ServiceName", StringValue("api")) && ServiceConfig()[1] == Field("ServiceName", StringValue(""));
  }

  /** The whole walk, given what the database block comes to. */
  lemma ServiceWalk(dbPort: string, db: Field, errors: seq<FieldError>)
    requires ReconcileField(ServiceText(dbPort)[2], ServiceConfig()[2], PlainLoader()) == Completed(db, errors)
    ensures Reconcile(ServiceText(dbPort), ServiceConfig(), PlainLoader())
         == Completed([Field("Port", IntValue(Int, 8080)), Field("ServiceName", StringValue("api")), db], errors)
  {
    var l := PlainLoader();
    var src := ServiceText(dbPort);
    var dst := ServiceConfig();
    TopLeaves(dbPort);
    var a := Field("Port", IntValue(Int, 8080));
    var b := Field("ServiceName", StringValue("api"));
    assert Walk([], [], l) == Completed([], []);
    WalkCons(src[2], dst[2], [], [], l);
    assert [src[2]] + [] == [src[2]] && [dst[2]] + [] == [dst[2]];
    assert [db] + [] == [db] && errors + [] == errors;
    WalkCons(src[1], dst[1], [src[2]], [dst[2]], l);
    assert [b] + [db] == [b, db] && [] + errors == errors;
    WalkCons(src[0], dst[0], [src[1]] + [src[2]], [dst[1]] + [dst[2]], l);
    assert [src[0]] + ([src[1]] + [src[2]]) == src && [dst[0]] + ([dst[1]] + [dst[2]]) == dst;
    assert [a] + [b, db] == [a, b, db];
  }

  /** Every leaf resolves: the configuration holds the numbers and names, and no error is
      reported. */
  lemma AllLeavesResolve()
    ensures Reconcile(ServiceText("5432"), ServiceConfig(), PlainLoader())
         == Completed([ Field("Port", IntValue(Int, 8080)),
                        Field("ServiceName", StringValue("api")),
                        Field("DB", StructValue([Field("Host", StringValue("localhost")), Field("Port", IntValue(Int, 5432))])) ],
                      [])
  {
    LoadsDbPort();
    var port := Field("Port", IntValue(Int, 5432));
    assert ReconcileField(Field("Port", StringValue("5432")), Field("Port", IntValue(Int, 0)), PlainLoader()) == Completed(port, []);
    DbBlock(Field("Port", StringValue("5432")), port, []);
    ServiceWalk("5432", Field("DB", StructValue([Field("Host", StringValue("localhost")), port])), []);
  }

  /** An empty port fails to load as an integer, keeps its value and is reported with the
      blank-value message. */
  lemma EmptyPortLeaf()
    ensures ReconcileField(Field("Port", StringValue("")), Field("Port", IntValue(Int, 0)), PlainLoader())
         == Completed(Field("Port", IntValue(Int, 0)), [FieldError("Port: ", "field is empty")])
  {
    assert Strings.IsBlank("");
    assert !Numeral("");
    assert "Port" + ": " + "" == "Port: ";
  }

  /** An empty database port is one error, named after the field and its empty text, with
      the blank-value message; the other leaves still resolve and the port keeps its value. */
  lemma EmptyPortReported()
    ensures Reconcile(ServiceText(""), ServiceConfig(), PlainLoader())
         == Completed([ Field("Port", IntValue(Int, 8080)),
                        Field("ServiceName", StringValue("api")),
                        Field("DB", StructValue([Field("Host", StringValue("localhost")), Field("Port", IntValue(Int, 0))])) ],
                      [FieldError("Port: ", "field is empty")])
  {
    var port := Field("Port", IntValue(Int, 0));
    var err := FieldError("Port: ", "field is empty");
    EmptyPortLeaf();
    DbBlock(Field("Port", StringValue("")), port, [err]);
    assert ServiceText("")[2] == Field("DB", StructValue([Field("Host", StringValue("localhost")), Field("Port", StringValue(""))]));
    ServiceWalk("", Field("DB", StructValue([Field("Host", StringValue("localhost")), port])), [err]);
  }

  /** The combined report of that one error is the pair, on one line. */
  lemma EmptyPortReport()
    ensures FieldErrorsText([FieldError("Port: ", "field is empty")]) == "Port:  - 'field is empty'"
  {
    var e := FieldError("Port: ", "field is empty");
    assert Lines([e]) == [Line(e)];
    assert Line(e) == "Port:  - 'field is empty'";
  }
}
