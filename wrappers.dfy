/** Optional values, standing in for C# null references and for "not found". */
module Wrappers {

  datatype Option<T> = None | Some(value: T)
}
