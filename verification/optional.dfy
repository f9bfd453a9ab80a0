/** The JavaScript `null`-or-value convention of the scraper, as a datatype. */
module Optional {

  /** `None` stands for JavaScript `null`; `Some(v)` for a present value. */
  datatype Option<+T> = None | Some(value: T)
}
