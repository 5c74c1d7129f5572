/** Failure-compatible wrappers shared by the whole model.

    The modelled Python code reports failure only by raising an exception; the
    exceptions its inputs can provoke are listed in `Error`. Dash's `no_update`
    sentinel (leave this callback output as it is) becomes `Update.NoUpdate`.
 */
module Wrappers {

  datatype Option<+T> = None | Some(value: T)

  /** The Python exceptions the modelled code can raise on its inputs. */
  datatype Error =
    | KeyError(key: string)        // d[k] or del d[k] with k absent
    | TypeError(reason: string)    // `+` on mismatched operands, iterating a non-list
    | NameError(name: string)      // a call to a name that is not defined
    | DecodeError                  // json.loads on a malformed string

  datatype Result<+T> = Success(value: T) | Failure(error: Error) {
    predicate IsFailure() {
      Failure?
    }

    function PropagateFailure<U>(): Result<U>
      requires Failure?
    {
      Failure(error)
    }

    function Extract(): T
      requires Success?
    {
      value
    }
  }

  /** One output of a Dash callback: a new value, or `no_update`. */
  datatype Update<+T> = NoUpdate | Changed(value: T)
}
