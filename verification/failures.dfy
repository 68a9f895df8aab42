/**
 The failure values of the Rush Hour core.  The Java code signals these with
 `RushHourException` (duplicate id, unknown id, illegal move) or, in the goal
 test, with a `NullPointerException` when the board has no red car.
 */
module Failures {

  datatype Error =
    | DuplicateId      // addVehicle: "Vehicle with this ID already exists."
    | VehicleNotFound  // getVehicle: "Vehicle not found."
    | IllegalMove      // moveVehicle: "Invalid move for vehicle ..."
    | MissingRedCar    // isGoal dereferences a null red car

  /** A value or nothing: the Java `null` of `getRedCar`. */
  datatype Option<+T> = None | Some(value: T)

  /** A value or the error the Java code would throw. */
  datatype Result<+T> = Ok(value: T) | Err(error: Error)
}
