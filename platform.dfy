/** C integer types, the ESP-IDF error type and pointers, as the interface layer sees them.
    Every ESP-IDF call is an oracle: its result is an input of the operation that issues it. */
module Platform {

  newtype uint8 = x: int | 0 <= x < 0x100
  newtype uint16 = x: int | 0 <= x < 0x1_0000
  newtype uint32 = x: int | 0 <= x < 0x1_0000_0000
  newtype int32 = x: int | -0x8000_0000 <= x < 0x8000_0000

  const UINT32_MODULUS: int := 0x1_0000_0000

  /** `esp_err_t` is a 32-bit signed integer; its bit pattern is what `|=` combines. */
  type EspErr = bv32

  const ESP_OK: EspErr := 0

  datatype Option<T> = None | Some(value: T)

  /** A C pointer to a byte buffer: NULL or some address. */
  datatype Ptr = Null | At(address: nat)

  /** The 0/1 status code every interface function returns. */
  function StatusOf(ret: EspErr): (status: uint8)
    ensures status <= 1
    ensures status == 0 <==> ret == ESP_OK
  {
    if ret != ESP_OK then 1 else 0
  }
}
