/** Lifecycle events the endpoint writer publishes on the actor system's event stream. */
module Events {

  datatype Event =
    | EndpointConnected(address: string)
    | EndpointTerminated(address: string)
}
