/**
 * A ride record of `data/seen_cars.yml`: the mapping `{car_no, line, date}`.
 * Every field is kept as the text the file holds; `car_no` is only turned
 * into a number where a script calls `int()` on it.
 */
module Rides {

  datatype Ride = Ride(carNo: string, line: string, date: string)
}
