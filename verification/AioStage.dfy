/** Where the loop thread found a handle to activate. */
module AioStage {
  datatype Stage = Incoming | Timeout | Epoll
}
