/** Message headers, as far as the queues look at them. */
module Messages {
  const LOW := 0
  const NORMAL := 1
  const HIGH := 2
  const URGENT := 3

  datatype Message = Message(id: nat, sender: int, receiver: int, priority: nat)
}
