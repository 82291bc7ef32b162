/** The optional value that both the allocator and the timer's lazily
    created queue use (Rust's `Option`). */
module Optional {
  datatype Option<+T> = None | Some(value: T)
}
