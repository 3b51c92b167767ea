/** The usual Some/None wrapper, used wherever the scheduler returns std::optional or an empty container to mean "nothing found". */
module Optional {

  datatype Option<T> = None | Some(value: T)

}
