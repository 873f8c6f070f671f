/** Optional values, results and the exceptions the vocabulary code can raise. */
module Wrappers {

  datatype Option<+T> = None | Some(value: T)

  /** The Python exceptions that escape the modelled operations. */
  datatype Error =
    | KeyError           // dictionary lookup of a missing key
    | IndexError         // array index out of range, or an axis beyond the shape tuple
    | AxisError          // numpy reduction along an axis the array does not have
    | ZeroDivisionError  // numba's block count n_elems / stepsize with stepsize 0
    | NameError          // reference to an undefined name
    | TypeError          // iterating over a single integer

  datatype Result<+T> = Ok(value: T) | Err(error: Error)
}
