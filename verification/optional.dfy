/** The optional-value datatype shared by the collector and the allocator models. */
module Optional {

  /** `None` stands for an absent value (a missing row, no failure, a raised exception). */
  datatype Option<+T> = None | Some(value: T)
}
