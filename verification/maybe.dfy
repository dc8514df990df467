/** An optional value: used for frames the interpolator never writes and for
    integer codes that name no enumerator. */
module Maybe {

  datatype Option<+T> = None | Some(value: T)
}
