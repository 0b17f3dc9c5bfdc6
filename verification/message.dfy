/** The message value of `message.go`: an optional key (nil until the queue
    stamps one), the payload bytes, and the priority (-1 until dequeued). Go
    strings are byte strings, so payloads are `Bytes` throughout. */
module Messages {
  import opened Bytes
  import opened Results

  datatype Message = Message(key: Option<Bytes>, value: Bytes, priority: int)

  /** The priority range 0..255 every queue of the package accepts. */
  predicate ValidPriority(p: int)
  {
    0 <= p <= 255
  }

  /** `Priority()`: the priority the message had in the queue, -1 when new. */
  function Priority(m: Message): (p: int)
    ensures p == m.priority
  {
    m.priority
  }

  /** `ToString()`: the payload, byte for byte. */
  function ToString(m: Message): (s: Bytes)
    ensures s == m.value
  {
    m.value
  }

  /** `NewMessage(value)`: a fresh message, with no key and priority -1, whose
      payload reads back as the string it was made from. */
  function NewMessage(value: Bytes): (m: Message)
    ensures m.key == None
    ensures Priority(m) == -1
    ensures ToString(m) == value
  {
    Message(None, value, -1)
  }
}
