/** The nullable columns of the Participants table (`string | null`) and the
    nullable `updating` marker (`number | null`) are modelled with Option. */
module Wrappers {

  datatype Option<+T> = None | Some(value: T)
}
