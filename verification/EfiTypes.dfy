/** Types shared by the models of several drivers. */
module EfiTypes {
  datatype Option<+T> = None | Some(value: T)

  /** The EFI_STATUS codes that occur in the model. */
  datatype Status = EFI_SUCCESS | EFI_LOAD_ERROR | EFI_INVALID_PARAMETER | EFI_BAD_BUFFER_SIZE | EFI_BUFFER_TOO_SMALL |
                    EFI_OUT_OF_RESOURCES | EFI_NOT_FOUND | EFI_ACCESS_DENIED | EFI_WRITE_PROTECTED

  /** b with the elements x written at p. */
  function Overwrite<T>(b: seq<T>, p: nat, x: seq<T>): (b': seq<T>)
    requires p + |x| <= |b|
    ensures |b'| == |b| && b'[p..p + |x|] == x
    ensures forall i :: 0 <= i < |b| && !(p <= i < p + |x|) ==> b'[i] == b[i]
  {
    b[..p] + x + b[p + |x|..]
  }
}
