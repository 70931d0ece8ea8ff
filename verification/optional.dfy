/** The absent-or-present value used for the controller's nullable fields
    (a reset form control holds null; the search term starts undefined). */
module Optional {

  datatype Option<+T> = None | Some(value: T)

}
