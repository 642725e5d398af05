/** The error middleware: a case split on the error's name that chooses the status and
    the body of the reply. Its console output is not modelled. */
module ErrorHandler {
  import opened JsValues

  /** One entry of a Sequelize error's `errors` array. */
  datatype ItemError = ItemError(path: string, message: string)

  /** A thrown error. `status` is the optional `err.status`; `message` and `stack` are the
      error's strings (`""` when unset). */
  datatype Error = Error(name: string, errors: seq<ItemError>, status: Option<int>, message: string, stack: string)

  datatype FieldError = FieldError(field: string, message: string)

  /** The reply: status and JSON body (`errors` and `stack` are present only when shown). */
  datatype ErrorReply = ErrorReply(status: int, message: string, errors: Option<seq<FieldError>>, stack: Option<string>)

  const ValidationErrorName := "SequelizeValidationError"
  const UniqueConstraintErrorName := "SequelizeUniqueConstraintError"
  const ForeignKeyConstraintErrorName := "SequelizeForeignKeyConstraintError"

  /** `err.errors.map(e => ({ field: e.path, message: e.message }))` */
  function FieldErrors(errs: seq<ItemError>): (r: seq<FieldError>)
    ensures |r| == |errs|
    ensures forall i :: 0 <= i < |r| ==> r[i].field == errs[i].path && r[i].message == errs[i].message
  {
    if errs == [] then []
    else [FieldError(errs[0].path, errs[0].message)] + FieldErrors(errs[1..])
  }

  /** The reply for `err`; `development` is `process.env.NODE_ENV === 'development'`. */
  function Handle(err: Error, development: bool): (r: ErrorReply)
    ensures r.status != 0
    ensures r.message != ""
    ensures r.errors.Some? <==> err.name == ValidationErrorName || err.name == UniqueConstraintErrorName
    ensures r.errors.Some? ==> |r.errors.value| == |err.errors|
    ensures r.stack.Some? ==> development && r.stack == Some(err.stack)
  {
    if err.name == ValidationErrorName then
      ErrorReply(400, "Validation error", Some(FieldErrors(err.errors)), None)
    else if err.name == UniqueConstraintErrorName then
      ErrorReply(409, "Resource already exists", Some(FieldErrors(err.errors)), None)
    else if err.name == ForeignKeyConstraintErrorName then
      ErrorReply(400, "Invalid reference to another resource", None, None)
    else
      ErrorReply(if err.status.Some? && err.status.value != 0 then err.status.value else 500,
                 if err.message != "" then err.message else "Internal server error",
                 None,
                 if development then Some(err.stack) else None)
  }

  /** The three database errors: a fixed status and message, and a field list only for
      validation and uniqueness errors, one entry per underlying error in order. */
  lemma DatabaseErrors(err: Error, development: bool)
    ensures err.name == ValidationErrorName ==>
      var r := Handle(err, development);
      r.status == 400 && r.message == "Validation error" && r.errors.Some? && |r.errors.value| == |err.errors|
      && (forall i :: 0 <= i < |err.errors| ==> r.errors.value[i] == FieldError(err.errors[i].path, err.errors[i].message))
    ensures err.name == UniqueConstraintErrorName ==>
      var r := Handle(err, development);
      r.status == 409 && r.message == "Resource already exists" && r.errors.Some? && |r.errors.value| == |err.errors|
      && (forall i :: 0 <= i < |err.errors| ==> r.errors.value[i] == FieldError(err.errors[i].path, err.errors[i].message))
    ensures err.name == ForeignKeyConstraintErrorName ==>
      Handle(err, development) == ErrorReply(400, "Invalid reference to another resource", None, None)
  {
    if err.name == ValidationErrorName || err.name == UniqueConstraintErrorName {
      var fs := FieldErrors(err.errors);
      forall i | 0 <= i < |err.errors| ensures fs[i] == FieldError(err.errors[i].path, err.errors[i].message) {
      }
    }
  }

  /** A database error's reply depends on nothing but its name and its field list: not on its
      own status, message or stack, nor on the environment. */
  lemma DatabaseErrorsHideInternals(e1: Error, e2: Error, d1: bool, d2: bool)
    requires e1.name == e2.name && e1.errors == e2.errors
    requires e1.name in {ValidationErrorName, UniqueConstraintErrorName, ForeignKeyConstraintErrorName}
    ensures Handle(e1, d1) == Handle(e2, d2)
  {
  }

  /** Any other error: its own status if truthy, else 500; its own message if non-empty,
      else a generic one; the stack only in development. */
  lemma OtherErrors(err: Error, development: bool)
    requires err.name !in {ValidationErrorName, UniqueConstraintErrorName, ForeignKeyConstraintErrorName}
    ensures Handle(err, development).status == (if err.status.Some? && err.status.value != 0 then err.status.value else 500)
    ensures Handle(err, development).message == (if err.message != "" then err.message else "Internal server error")
    ensures Handle(err, development).errors == None
    ensures Handle(err, development).stack == (if development then Some(err.stack) else None)
  {
  }

  /** Outside development no reply carries a stack. */
  lemma NoStackOutsideDevelopment(err: Error)
    ensures Handle(err, false).stack == None
  {
  }
}
