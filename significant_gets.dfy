/** The significant-GETs route: it reads the GET analyzer's results file,
    keeps the entries that pass a shape check, ranks them by check count and
    then digit count, both descending, and answers with the top two.

    The file is given as what reading and parsing it produced; the route's
    own directory set-up, which can only fail with an I/O error, is not part
    of the model. */
module SignificantGets {
  import opened Common
  import opened Strings
  import opened Ranking

  const NoData := "No GETs data available"
  const InvalidStructure := "Invalid data structure"
  const NoValidData := "No valid GETs data available"
  const ReadFailed := "Failed to read GETs data"

  /** A parsed JSON value. Numbers are integers here. */
  datatype Json = JNull | JBool(b: bool) | JNum(n: int) | JStr(s: string) | JArr(items: seq<Json>) | JObj(fields: map<string, Json>)

  /** JavaScript truthiness of a parsed value. */
  predicate Truthy(j: Json) {
    match j
    case JNull => false
    case JBool(b) => b
    case JNum(n) => n != 0
    case JStr(s) => s != ""
    case _ => true
  }

  /** `j.k`: a named property; only objects have them. */
  function Field(j: Json, k: string): (f: Option<Json>)
    ensures f.Some? <==> j.JObj? && k in j.fields
  {
    if j.JObj? && k in j.fields then Some(j.fields[k]) else None
  }

  predicate IsNumber(f: Option<Json>) {
    f.Some? && f.value.JNum?
  }

  predicate IsString(f: Option<Json>) {
    f.Some? && f.value.JStr?
  }

  /** `isValidGetResult`: a truthy entry with a truthy `metadata` whose
      `postNo` and `checkCount` are numbers and `comment` a string, and a
      string `getType`. `digitCount` is not checked. */
  predicate IsValidGetResult(r: Json)
    ensures IsValidGetResult(r) ==> r.JObj? && "metadata" in r.fields && "getType" in r.fields
    ensures IsValidGetResult(r) ==> r.fields["metadata"].JObj? && r.fields["getType"].JStr?
  {
    && Truthy(r)
    && Field(r, "metadata").Some?
    && Truthy(Field(r, "metadata").value)
    && IsNumber(Field(Field(r, "metadata").value, "postNo"))
    && IsString(Field(Field(r, "metadata").value, "comment"))
    && IsNumber(Field(Field(r, "metadata").value, "checkCount"))
    && IsString(Field(r, "getType"))
  }

  /** A validated entry, with the fields the route reads. Image fields are
      copied through whatever they hold. */
  datatype ValidGet = ValidGet(
    postNo: int,
    comment: string,
    checkCount: int,
    getType: string,
    digitCount: Option<int>,
    hasImage: Option<Json>,
    filename: Option<Json>,
    ext: Option<Json>,
    tim: Option<Json>)

  /** The number a subtraction makes of a parsed value, where it is a whole
      number: `null`, `false`, `[]` and a blank string are 0, `true` is 1, and
      a string of decimal digits, white space around it allowed, is its
      value. None is NaN (an object, any other string) and also stands for
      the conversions left out of the model (a non-empty array, a sign, an
      exponent, a hexadecimal or fractional string). */
  function ToNumber(j: Json): (n: Option<int>)
    ensures j.JNum? ==> n == Some(j.n)
    ensures j.JNull? || j == JBool(false) || j == JArr([]) ==> n == Some(0)
    ensures j == JBool(true) ==> n == Some(1)
    ensures j.JStr? && AllSpace(j.s) ==> n == Some(0)
    ensures j.JStr? && AllDigits(Trim(j.s)) ==> n == Some(DigitsValue(Trim(j.s)))
    ensures j.JObj? ==> n.None?
  {
    match j
    case JNull => Some(0)
    case JBool(b) => Some(if b then 1 else 0)
    case JNum(x) => Some(x)
    case JStr(s) =>
      var t := Trim(s);
      if AllDigits(t) then Some(DigitsValue(t)) else None
    case JArr(items) => if items == [] then Some(0) else None
    case JObj(_) => None
  }

  function View(r: Json): (g: ValidGet)
    requires IsValidGetResult(r)
  {
    var md := Field(r, "metadata").value;
    var digits := Field(r, "digitCount");
    ValidGet(
      Field(md, "postNo").value.n,
      Field(md, "comment").value.s,
      Field(md, "checkCount").value.n,
      Field(r, "getType").value.s,
      if digits.Some? then ToNumber(digits.value) else None,
      Field(md, "hasImage"), Field(md, "filename"), Field(md, "ext"), Field(md, "tim"))
  }

  /** `results.filter(isValidGetResult)`: the valid entries, in order. */
  function FilterValid(rs: seq<Json>): (r: seq<Json>)
    ensures |r| <= |rs|
    ensures forall k :: 0 <= k < |r| ==> IsValidGetResult(r[k])
    ensures forall x :: x in r <==> x in rs && IsValidGetResult(x)
  {
    if rs == [] then []
    else
      var rest := FilterValid(rs[1..]);
      assert rs == [rs[0]] + rs[1..];
      if IsValidGetResult(rs[0]) then [rs[0]] + rest else rest
  }

  /** The filter keeps order and multiplicity: it works entry by entry. */
  lemma {:induction false} FilterValidAppend(a: seq<Json>, b: seq<Json>)
    ensures FilterValid(a + b) == FilterValid(a) + FilterValid(b)
  {
    if a == [] {
      assert a + b == b;
    } else {
      ConsAppend(a, b);
      FilterValidAppend(a[1..], b);
    }
  }

  function Views(rs: seq<Json>): (vs: seq<ValidGet>)
    requires forall k :: 0 <= k < |rs| ==> IsValidGetResult(rs[k])
    ensures |vs| == |rs|
    ensures forall k :: 0 <= k < |rs| ==> vs[k] == View(rs[k])
  {
    seq(|rs|, k requires 0 <= k < |rs| => View(rs[k]))
  }

  /** The valid entries of a `results` array, viewed. */
  function ValidGets(rs: seq<Json>): (vs: seq<ValidGet>)
    ensures |vs| == |FilterValid(rs)| <= |rs|
    ensures forall k :: 0 <= k < |vs| ==> vs[k] == View(FilterValid(rs)[k])
    ensures forall v :: v in vs ==> exists r :: r in rs && IsValidGetResult(r) && v == View(r)
    ensures forall r :: r in rs && IsValidGetResult(r) ==> View(r) in vs
  {
    var valid := FilterValid(rs);
    var vs := Views(valid);
    assert forall k :: 0 <= k < |vs| ==> valid[k] in rs && vs[k] == View(valid[k]);
    forall r | r in rs && IsValidGetResult(r)
      ensures View(r) in vs
    {
      var k :| 0 <= k < |valid| && valid[k] == r;
      assert vs[k] == View(r);
    }
    vs
  }

  /** The comparator: check count, then digit count, both descending. A
      digit count that is missing or converts to NaN ranks as 0. */
  function GetKey(g: ValidGet): Rank {
    Rank(g.checkCount, g.digitCount.GetOr(0))
  }

  /** One of `getOne` and `getTwo` as the route writes it. */
  datatype GetView = GetView(
    postNumber: string,
    comment: string,
    checkCount: int,
    getType: string,
    hasImage: Option<Json>,
    filename: Option<Json>,
    ext: Option<Json>,
    tim: Option<Json>)

  function Present(g: ValidGet): (v: GetView)
    ensures v.postNumber == IntToString(g.postNo)
    ensures v.comment == g.comment && v.checkCount == g.checkCount && v.getType == g.getType
    ensures v.hasImage == g.hasImage && v.filename == g.filename && v.ext == g.ext && v.tim == g.tim
  {
    GetView(IntToString(g.postNo), g.comment, g.checkCount, g.getType, g.hasImage, g.filename, g.ext, g.tim)
  }

  /** The body of a successful answer; a missing second entry is `null`. */
  datatype GetsPair = GetsPair(getOne: Option<GetView>, getTwo: Option<GetView>)

  /** The `results` array of the parsed file, if it is one. */
  function ResultsArray(data: Json): (r: Option<seq<Json>>)
    ensures r.Some? <==> Field(data, "results").Some? && Field(data, "results").value.JArr?
  {
    match Field(data, "results")
    case Some(JArr(items)) => Some(items)
    case _ => None
  }

  /** `GET /api/significant-gets`. */
  function SignificantGetsRoute(file: FileRead<Json>): (resp: Response<GetsPair>)
    ensures file.NotFound? <==> resp == Failed(404, NoData)
    ensures file.Corrupt? || file == Loaded(JNull) <==> resp == Failed(500, ReadFailed)
    ensures file.Loaded? && file.value != JNull ==>
      (ResultsArray(file.value).None? <==> resp == Failed(500, InvalidStructure))
    ensures file.Loaded? && file.value != JNull && ResultsArray(file.value).Some? ==>
      var valid := ValidGets(ResultsArray(file.value).value);
      && (|valid| == 0 <==> resp == Failed(404, NoValidData))
      && (|valid| > 0 <==> resp.Ok?)
      && (resp.Ok? ==> resp.body.getOne.Some? && (resp.body.getTwo.Some? <==> |valid| >= 2))
  {
    match file
    case NotFound => Failed(404, NoData)
    case Corrupt => Failed(500, ReadFailed)
    case Loaded(data) =>
      if data.JNull? then Failed(500, ReadFailed)  // `null.results` throws
      else match ResultsArray(data)
        case None => Failed(500, InvalidStructure)
        case Some(items) =>
          var valid := ValidGets(items);
          if |valid| == 0 then Failed(404, NoValidData)
          else
            var sorted := SortDesc(valid, GetKey);
            Ok(GetsPair(Some(Present(sorted[0])), if |sorted| >= 2 then Some(Present(sorted[1])) else None))
  }

  /** A file whose `results` array holds a valid entry is answered with the
      first two entries of the ranking, which `TopTwo` shows are the two
      best. */
  lemma ReportsRanking(data: Json)
    requires data != JNull && ResultsArray(data).Some? && |ValidGets(ResultsArray(data).value)| > 0
    ensures var sorted := SortDesc(ValidGets(ResultsArray(data).value), GetKey);
      SignificantGetsRoute(Loaded(data)) ==
        Ok(GetsPair(Some(Present(sorted[0])), if |sorted| >= 2 then Some(Present(sorted[1])) else None))
  {
  }

  /** Only validated entries are ranked: every reported entry is the view of
      an entry that passes `isValidGetResult`. */
  lemma RankedAreValid(items: seq<Json>)
    ensures forall v :: v in SortDesc(ValidGets(items), GetKey) ==>
      exists r :: r in items && IsValidGetResult(r) && v == View(r)
  {
    var valid := ValidGets(items);
    forall v | v in SortDesc(valid, GetKey)
      ensures exists r :: r in items && IsValidGetResult(r) && v == View(r)
    {
      assert v in multiset(SortDesc(valid, GetKey));
      assert v in valid;
    }
  }

  /** A digit count stored as its decimal text ranks as the number itself. */
  lemma DigitCountText(k: nat)
    ensures ToNumber(JStr(NatToString(k))) == Some(k)
  {
    TrimDigits(NatToString(k));
    ParseNatToString(k);
  }

  /** `digitCount` does not take part in validation: an entry with any value
      there, or none, is valid exactly when it is without it. */
  lemma DigitCountNotChecked(meta: map<string, Json>, getType: Json, digits: Json)
    ensures var without := JObj(map["metadata" := JObj(meta), "getType" := getType]);
      var with := JObj(map["metadata" := JObj(meta), "getType" := getType, "digitCount" := digits]);
      IsValidGetResult(with) <==> IsValidGetResult(without)
  {
  }
}
