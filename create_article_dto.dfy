/**
  The body of a create- or update-article request and its field constraints:
  title a string of 3 to 100 characters, body a string of 10 to 2000
  characters, author an integer. The payload arrives untyped, so each field
  is a JSON-like value that the constraints inspect.
 */
module ArticleDto {

  /** A field of the incoming payload: a string, a number, or anything else
      (absent, null, a boolean, an object). */
  datatype Value = Str(s: string) | Num(n: real) | Other

  /** The payload with the three declared fields; cover_image is not one. */
  datatype CreateArticleDto = CreateArticleDto(title: Value, body: Value, author: Value)

  datatype Field = Title | Body | Author

  /** The decorators on the fields: IsString, Length and IsInt. */
  datatype Constraint = IsString | Length | IsInt

  datatype Violation = Violation(field: Field, constraint: Constraint, message: string)

  const TITLE_MIN := 3
  const TITLE_MAX := 100
  const BODY_MIN := 10
  const BODY_MAX := 2000

  /** @IsString(): the value is a string. */
  predicate IsStringValue(v: Value) {
    v.Str?
  }

  /** @Length(min, max): the value is a string whose length lies in
      [min, max], both ends included. */
  predicate HasLength(v: Value, min: nat, max: nat) {
    v.Str? && min <= |v.s| <= max
  }

  /** @IsInt(): the value is a number with no fractional part. */
  predicate IsIntValue(v: Value) {
    v.Num? && v.n.Floor as real == v.n
  }

  predicate ValidTitle(v: Value) {
    IsStringValue(v) && HasLength(v, TITLE_MIN, TITLE_MAX)
  }

  predicate ValidBody(v: Value) {
    IsStringValue(v) && HasLength(v, BODY_MIN, BODY_MAX)
  }

  predicate ValidAuthor(v: Value) {
    IsIntValue(v)
  }

  /** The payload passes validation when every declared field does. */
  predicate Valid(dto: CreateArticleDto) {
    ValidTitle(dto.title) && ValidBody(dto.body) && ValidAuthor(dto.author)
  }

  /** Which decorators each field carries. */
  predicate Declared(f: Field, c: Constraint) {
    match f
    case Title => c == IsString || c == Length
    case Body => c == IsString || c == Length
    case Author => c == IsInt
  }

  function FieldValue(dto: CreateArticleDto, f: Field): Value {
    match f
    case Title => dto.title
    case Body => dto.body
    case Author => dto.author
  }

  /** Whether one decorator of one field is satisfied by the payload. */
  predicate Holds(dto: CreateArticleDto, f: Field, c: Constraint) {
    var v := FieldValue(dto, f);
    match c
    case IsString => IsStringValue(v)
    case Length =>
      if f == Title then HasLength(v, TITLE_MIN, TITLE_MAX)
      else HasLength(v, BODY_MIN, BODY_MAX)
    case IsInt => IsIntValue(v)
  }

  /** The message a failed decorator reports: the two custom Length messages,
      and the validator's defaults for IsString and IsInt. */
  function Message(f: Field, c: Constraint): string {
    match (f, c)
    case (Title, Length) => "title is too short or too long"
    case (Body, Length) => "body is too short"
    case (Title, IsString) => "title must be a string"
    case (Body, IsString) => "body must be a string"
    case (Author, IsInt) => "author must be an integer number"
    case _ => "constraint not declared"
  }

  function Check(dto: CreateArticleDto, f: Field, c: Constraint): seq<Violation> {
    if Holds(dto, f, c) then [] else [Violation(f, c, Message(f, c))]
  }

  /** Every failed decorator, field by field in declaration order. */
  function Violations(dto: CreateArticleDto): (r: seq<Violation>)
    ensures r == [] <==> Valid(dto)
    ensures forall v :: v in r ==>
      && Declared(v.field, v.constraint)
      && !Holds(dto, v.field, v.constraint)
      && v.message == Message(v.field, v.constraint)
    ensures forall f, c :: Declared(f, c) && !Holds(dto, f, c) ==>
      Violation(f, c, Message(f, c)) in r
  {
    Check(dto, Title, IsString) + Check(dto, Title, Length)
    + Check(dto, Body, IsString) + Check(dto, Body, Length)
    + Check(dto, Author, IsInt)
  }

  /** The body message says "too short" at both ends of the range. */
  lemma BodyTooLongReportedAsTooShort(dto: CreateArticleDto)
    requires dto.body.Str? && |dto.body.s| > BODY_MAX
    ensures !Valid(dto)
    ensures Violation(Body, Length, "body is too short") in Violations(dto)
  {
  }

  /** With a valid title and body, the validator reports exactly the IsInt
      failure of the author, and does so precisely when the author is not an
      integer. */
  lemma {:induction false} AuthorOnlyViolation(dto: CreateArticleDto)
    requires ValidTitle(dto.title) && ValidBody(dto.body)
    ensures Violations(dto) == [Violation(Author, IsInt, "author must be an integer number")]
        <==> !ValidAuthor(dto.author)
  {
    var only := Violation(Author, IsInt, "author must be an integer number");
    assert Check(dto, Title, IsString) == [] && Check(dto, Title, Length) == [];
    assert Check(dto, Body, IsString) == [] && Check(dto, Body, Length) == [];
    assert Violations(dto) == Check(dto, Author, IsInt);
    if ValidAuthor(dto.author) {
      assert Check(dto, Author, IsInt) == [];
    } else {
      assert Check(dto, Author, IsInt) == [only];
    }
  }

  /** A fractional author and an author sent as a string are both refused
      with the IsInt message alone; an integral number passes. */
  lemma AuthorExamples()
    ensures var ok := CreateArticleDto(Str("Hello World"), Str("This is a sufficiently long body."), Num(7.0));
      && Violations(ok) == []
      && Violations(ok.(author := Num(2.5))) == [Violation(Author, IsInt, "author must be an integer number")]
      && Violations(ok.(author := Str("7"))) == [Violation(Author, IsInt, "author must be an integer number")]
  {
    var ok := CreateArticleDto(Str("Hello World"), Str("This is a sufficiently long body."), Num(7.0));
    assert ValidTitle(ok.title) && ValidBody(ok.body);
    assert (7.0).Floor == 7 && (2.5).Floor == 2;
    AuthorOnlyViolation(ok);
    AuthorOnlyViolation(ok.(author := Num(2.5)));
    AuthorOnlyViolation(ok.(author := Str("7")));
  }
}
