/** `java.util.concurrent.TimeUnit`, kept only as a label: the modelled code
    passes it to `sleep`, which the model does not perform. */
module TimeUnits {
  datatype TimeUnit = Nanoseconds | Microseconds | Milliseconds | Seconds | Minutes | Hours | Days
}
