/** The loaded catalog: hotels with their rooms, and bookings. Booking dates
    are kept as the `yyyyMMdd` texts of the booking data; they are parsed
    only when a query looks at them. */
module Catalog {
  import opened Results
  import Counting

  datatype Room = Room(roomType: string)

  datatype Hotel = Hotel(id: string, rooms: seq<Room>)

  datatype Booking = Booking(hotelId: string, roomType: string, arrival: string, departure: string)

  /** The first hotel whose id equals `id` exactly, if any (`FirstOrDefault`). */
  function FindHotel(hotels: seq<Hotel>, id: string): (r: Option<Hotel>)
    ensures r.None? <==> forall i :: 0 <= i < |hotels| ==> hotels[i].id != id
    ensures r.Some? ==> r.value.id == id
    ensures r.Some? ==> exists i :: 0 <= i < |hotels| && hotels[i] == r.value
                                 && forall j :: 0 <= j < i ==> hotels[j].id != id
  {
    if |hotels| == 0 then None
    else if hotels[0].id == id then Some(hotels[0])
    else
      var r := FindHotel(hotels[1..], id);
      assert forall i :: 0 <= i < |hotels| - 1 ==> hotels[1..][i] == hotels[i + 1];
      r
  }

  /** The number of rooms of the hotel whose type equals `roomType`. */
  function Capacity(hotel: Hotel, roomType: string): (total: nat)
    ensures total == |set i | 0 <= i < |hotel.rooms| && hotel.rooms[i].roomType == roomType|
    ensures total <= |hotel.rooms|
    ensures total == 0 <==> forall i :: 0 <= i < |hotel.rooms| ==> hotel.rooms[i].roomType != roomType
  {
    var matches := (room: Room) => room.roomType == roomType;
    assert forall i :: 0 <= i < |hotel.rooms| ==> matches(hotel.rooms[i]) == (hotel.rooms[i].roomType == roomType);
    var total := Counting.Count(hotel.rooms, matches);
    assert Counting.Where(hotel.rooms, matches) ==
      set i | 0 <= i < |hotel.rooms| && hotel.rooms[i].roomType == roomType;
    total
  }
}
