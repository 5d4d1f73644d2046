/** The application's tunable parameters: three module-level values with
    defaults, overwritten field by field and read back as a triple. */
module Constants {
  import opened Text

  const DefaultNumQuestions: int := 10
  const DefaultValidationSize: int := 5
  const DefaultTimeout: int := 30

  datatype Params = Params(numQuestions: int, validationSize: int, timeout: int)

  /** The parameters after an update: a field takes its argument exactly when
      the argument is present. */
  function Updated(p: Params, numQuestions: Option<int>, validationSize: Option<int>, timeout: Option<int>): (r: Params)
    ensures numQuestions.None? && validationSize.None? && timeout.None? ==> r == p
    ensures numQuestions.Some? && validationSize.Some? && timeout.Some? ==>
      r == Params(numQuestions.value, validationSize.value, timeout.value)
  {
    Params(
      if numQuestions.Some? then numQuestions.value else p.numQuestions,
      if validationSize.Some? then validationSize.value else p.validationSize,
      if timeout.Some? then timeout.value else p.timeout)
  }

  /** A present argument overwrites its field; an absent one leaves it as it was. */
  lemma UpdatedFields(p: Params, numQuestions: Option<int>, validationSize: Option<int>, timeout: Option<int>)
    ensures var r := Updated(p, numQuestions, validationSize, timeout);
      (numQuestions.Some? ==> r.numQuestions == numQuestions.value) &&
      (numQuestions.None? ==> r.numQuestions == p.numQuestions) &&
      (validationSize.Some? ==> r.validationSize == validationSize.value) &&
      (validationSize.None? ==> r.validationSize == p.validationSize) &&
      (timeout.Some? ==> r.timeout == timeout.value) &&
      (timeout.None? ==> r.timeout == p.timeout)
  {
  }

  /** Updating twice with the same arguments is the same as updating once. */
  lemma UpdatedIdempotent(p: Params, numQuestions: Option<int>, validationSize: Option<int>, timeout: Option<int>)
    ensures Updated(Updated(p, numQuestions, validationSize, timeout), numQuestions, validationSize, timeout)
         == Updated(p, numQuestions, validationSize, timeout)
  {
  }

  /** The store of current values. */
  class ParameterStore {
    var numQuestions: int
    var validationSize: int
    var timeout: int

    function Current(): Params
      reads this
    {
      Params(numQuestions, validationSize, timeout)
    }

    /** The current values start at the defaults (10, 5, 30). */
    constructor ()
      ensures Current() == Params(DefaultNumQuestions, DefaultValidationSize, DefaultTimeout)
      ensures Current() == Params(10, 5, 30)
    {
      numQuestions := DefaultNumQuestions;
      validationSize := DefaultValidationSize;
      timeout := DefaultTimeout;
    }

    /** `update_parameters`: overwrites each field whose argument is given. */
    method UpdateParameters(numQuestions: Option<int>, validationSize: Option<int>, timeout: Option<int>)
      modifies this
      ensures Current() == Updated(old(Current()), numQuestions, validationSize, timeout)
    {
      if numQuestions.Some? {
        this.numQuestions := numQuestions.value;
      }
      if validationSize.Some? {
        this.validationSize := validationSize.value;
      }
      if timeout.Some? {
        this.timeout := timeout.value;
      }
    }

    /** `get_parameters`: the current triple, in the order
        (num_questions, validation_size, timeout); changes nothing. */
    method GetParameters() returns (numQuestions: int, validationSize: int, timeout: int)
      ensures Params(numQuestions, validationSize, timeout) == Current()
    {
      numQuestions, validationSize, timeout := this.numQuestions, this.validationSize, this.timeout;
    }
  }
}
