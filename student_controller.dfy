/**
 * The student resource controller: five request handlers over the student
 * repository, each a short chain of checks (the key exists, the entity
 * validates, the store accepts the save) that ends in one HTTP response.
 */
module Students {
  import opened Wrappers
  import opened Store
  import opened Entities

  /** One failed field constraint, as the validator reports it. */
  datatype ValidationError = ValidationError(property: string, constraint: string)

  /** The fields a request body may carry. The handlers read them and use none. */
  datatype Payload = Payload(
    username: Option<string>,
    password: Option<string>,
    name: Option<string>,
    email: Option<string>,
    subject: Option<string>,
    roll: Option<string>)

  /** The `status` field of a JSON envelope: 'success' or 'fail'. */
  datatype EnvelopeStatus = StatusSuccess | StatusFail

  /** The `message` field: a fixed text, or the message of the store's error. */
  datatype Message = Text(text: string) | ErrorMessage(cause: SaveError)

  /** The `error` field: `false`, or the store's error object. */
  datatype ErrorField = NoError | ErrorObject(cause: SaveError)

  /** The `data` field: `false`, the list of records, or one record. */
  datatype Data = NoData | Records(records: seq<Student>) | Record(record: Student)

  datatype Envelope = Envelope(status: EnvelopeStatus, message: Message, error: ErrorField, data: Data)

  /** What a handler sends back. */
  datatype Body =
    | Json(envelope: Envelope)
    | Plain(text: string)
    | Errors(errors: seq<ValidationError>)
    | EntityNotFound(key: Key)   // the error findOneOrFail throws, sent as it is
    | NoContent

  datatype Response = Response(code: int, body: Body)

  class StudentController {
    /** The student repository. */
    const repo: Repository<StudentFields>
    /** The entity validator: the constraints a student fails, none when it is valid. */
    const validate: StudentFields -> seq<ValidationError>

    constructor (repo: Repository<StudentFields>, validate: StudentFields -> seq<ValidationError>)
      ensures this.repo == repo && this.validate == validate
    {
      this.repo := repo;
      this.validate := validate;
    }

    /** The repository is the student table: consistent, with the students' unique columns. */
    ghost predicate Valid()
      reads repo
    {
      repo.Valid() && repo.schema.uniqueOf == StudentUnique
    }

    /** GET /api/students: always 200 with every stored student. */
    method GetAll() returns (resp: Response)
      ensures resp.code == 200 && resp.body.Json?
      ensures resp.body.envelope.status == StatusSuccess
      ensures resp.body.envelope.message == Text("Data Found")
      ensures resp.body.envelope.error == NoError
      ensures resp.body.envelope.data.Records?
      ensures Enumerates(repo.rows, resp.body.envelope.data.records)
    {
      var data := repo.FindAll();
      resp := Response(200, Json(Envelope(StatusSuccess, Text("Data Found"), NoError, Records(data))));
    }

    /** GET /api/students/{id}: the record at the key, or 404 with the lookup error. */
    method GetOneById(key: Key) returns (resp: Response)
      ensures resp.code == 200 <==> key in repo.rows
      ensures key in repo.rows ==>
        resp.body == Json(Envelope(StatusSuccess, Text("data found (findById)"), NoError,
                                   Record(Row(Some(key), repo.rows[key]))))
      ensures key !in repo.rows ==> resp == Response(404, EntityNotFound(key))
    {
      var found := repo.Find(key);
      if found.None? {
        return Response(404, EntityNotFound(key));
      }
      resp := Response(200, Json(Envelope(StatusSuccess, Text("data found (findById)"), NoError,
                                          Record(found.value))));
    }

    /**
     * POST /api/students: validates and saves a new, empty student. The body's
     * fields are never copied onto it, so neither validation nor the save
     * depends on them.
     */
    method Create(body: Payload) returns (resp: Response)
      requires Valid()
      modifies repo
      ensures Valid()
      ensures resp.code == 400 || resp.code == 200 || resp.code == 201
      // validation errors: 400 with the list, and no save call
      ensures resp.code == 400 <==> |validate(NewStudent())| > 0
      ensures resp.code == 400 ==>
        && resp.body == Errors(validate(NewStudent()))
        && repo.State() == old(repo.State()) && repo.attempts == old(repo.attempts)
      // otherwise exactly one save of the new student
      ensures resp.code != 400 ==> repo.attempts == old(repo.attempts) + [Row(None, NewStudent())]
      ensures resp.code != 400 ==> repo.State() == SaveTo(repo.schema, old(repo.State()), Row(None, NewStudent())).table
      // a refused save is a 200 'fail' envelope carrying the store's error; it cannot be a
      // uniqueness clash, since the new student holds no unique value
      ensures resp.code == 200 ==>
        && resp.body == Json(Envelope(StatusFail, ErrorMessage(ColumnRejected), ErrorObject(ColumnRejected), NoData))
        && !repo.schema.admits(NewStudent())
        && repo.State() == old(repo.State())
      // a successful save adds exactly the new student, at a key that was free
      ensures resp.code == 201 ==>
        && resp.body == Plain("Student created")
        && old(repo.nextKey) !in old(repo.rows)
        && repo.rows == old(repo.rows)[old(repo.nextKey) := NewStudent()]
    {
      var data := Row(None, NewStudent());
      var errors := validate(data.fields);
      if |errors| > 0 {
        return Response(400, Errors(errors));
      }
      var saved := repo.Save(data);
      if saved.Failure? {
        return Response(200, Json(Envelope(StatusFail, ErrorMessage(saved.error), ErrorObject(saved.error), NoData)));
      }
      resp := Response(201, Plain("Student created"));
    }

    /**
     * PUT /api/students/{id}: fetches the record, validates it and saves it
     * back. The body's fields are never applied, so what is saved is what was
     * fetched.
     */
    method Update(key: Key, body: Payload) returns (resp: Response)
      requires Valid()
      modifies repo
      ensures Valid()
      // absent key: 404 and no save call
      ensures key !in old(repo.rows) ==>
        resp == Response(404, Plain("Student not found")) && repo.attempts == old(repo.attempts)
      // validation errors on the fetched record: 400 and no save call
      ensures key in old(repo.rows) && |validate(old(repo.rows[key]))| > 0 ==>
        resp == Response(400, Errors(validate(old(repo.rows[key])))) && repo.attempts == old(repo.attempts)
      // otherwise one save of the fetched record: 409 if refused, 204 if accepted
      ensures key in old(repo.rows) && |validate(old(repo.rows[key]))| == 0 ==>
        var out := SaveTo(repo.schema, old(repo.State()), Row(Some(key), old(repo.rows[key])));
        && repo.attempts == old(repo.attempts) + [Row(Some(key), old(repo.rows[key]))]
        && repo.State() == out.table
        && resp == (if out.result.Failure? then Response(409, Plain("teachername already in use"))
                    else Response(204, NoContent))
      // re-saving a stored record is never refused and stores what was there
      ensures resp.code != 409
      ensures repo.State() == old(repo.State())
    {
      var found := repo.Find(key);
      if found.None? {
        return Response(404, Plain("Student not found"));
      }
      var data := found.value;
      var errors := validate(data.fields);
      if |errors| > 0 {
        return Response(400, Errors(errors));
      }
      ResaveIsIdentity(repo.schema, repo.State(), key);
      var saved := repo.Save(data);
      if saved.Failure? {
        return Response(409, Plain("teachername already in use"));
      }
      resp := Response(204, NoContent);
    }

    /** DELETE /api/students/{id}: 404 for an absent key, else removes that one record. */
    method Destroy(key: Key) returns (resp: Response)
      requires Valid()
      modifies repo
      ensures Valid()
      ensures key !in old(repo.rows) ==>
        resp == Response(404, Plain("Student not found")) && repo.State() == old(repo.State())
      ensures key in old(repo.rows) ==>
        resp == Response(204, NoContent) && repo.State() == DeleteFrom(old(repo.State()), key)
      ensures key !in repo.rows
      ensures repo.attempts == old(repo.attempts)
    {
      var found := repo.Find(key);
      if found.None? {
        return Response(404, Plain("Student not found"));
      }
      repo.Delete(key);
      resp := Response(204, NoContent);
    }

    /** A delete followed by a lookup of the same key: the lookup is always a 404. */
    method DestroyThenGet(key: Key) returns (deleted: Response, fetched: Response)
      requires Valid()
      modifies repo
      ensures Valid()
      ensures deleted.code == 204 <==> key in old(repo.rows)
      ensures fetched == Response(404, EntityNotFound(key))
    {
      deleted := Destroy(key);
      fetched := GetOneById(key);
    }
  }
}
