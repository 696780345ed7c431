/** The three controlled angles. */
module Axes {
  datatype Axis = Roll | Pitch | Yaw
}
