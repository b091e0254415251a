/** How a command ends: `std::process::exit(0)`, `std::process::exit(1)`, or a normal return. */
module Process {

  datatype Outcome = Exit0 | Exit1 | Done
}
