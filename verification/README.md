# Verification of stm32-commons

A Dafny model of the integer and byte logic of the library: the rasterisers of the display
class, the calendar arithmetic behind alarms, the receive path of the UART, the byte array,
and the line framers of three device drivers. Each component follows the program's own form,
with its loops, its in-place updates and its integer widths, and is proved against definitions
that do not mention the loops.

- **Display** (`Raster`, `LineGeometry`, `LineWalk`, `CircleGeometry`, `CircleWalk`,
  `RoundRectGeometry`, `TriangleGeometry`, `Display`). The device is the set of pixels it was asked
  to write and the number of writes. Lines are the nearest pixels to the ideal line, a circle is the set of
  lattice points whose longer coordinate is nearest to the circle, a disc is everything up to
  its circle, a rounded rectangle is a circle pulled apart, and a triangle is covered row by
  row between its rounded edges. The error terms of the loops are related to these by their
  closed forms.
- **Calendar** (`Calendar`, `DateTime`, `Alarm`). The meaning of a timestamp is the formula of
  section 4.16 of the POSIX.1-2017 Base Definitions. The program's composition of a timestamp is
  not that formula; where the two agree is stated exactly.
- **UART** (`ByteQueue`, `Ring`, `CircularBuffer`, `Serial`, `UartInterleaving`,
  `UartCounting`, `UartReturns`, `UartFaults`, `UartCalls`). The ring buffer is a bounded queue over every
  history. The reads that do not mask interrupts and the interrupt that fills the ring run as a
  transition system in which the interrupt may come between any two accesses to the indices; what
  goes wrong there is stated exactly.
- **Byte strings and framing** (`ByteArray`, `Text`, `Hex`, `BigEndian`, `LineFraming`, `AxSigfox`,
  `Gps`, `Rn2483`, `DriverCalls`). The growable array matches a plain byte sequence, the codecs are
  inverse to each other, and the framers extract the same lines however a stream is portioned and
  whenever it is interrupted.

`MachineInts` holds the integer types. A variable of type `int16`, `uint8` and so on is proved
to stay in range at every assignment; where the program lets a value wrap, the wrap is written
out (`ToInt16`, `ToUInt8`, `ToUInt32`).

## Where the program differs from its documentation or its likely intent

- `computeEpochFromDateTime` counts the leap day of the given year from the first of January on
  and takes every February to have 28 days. The slips cancel outside January and February of leap
  years (`EpochCorrectIff`, `RoundTrip`, `EpochMonotone`, `LeapYearWitnesses`).
- `Time::fromSeconds` does not reduce minutes and cuts hours and minutes to eight bits. Alarms less
  than an hour ahead are right from the second day of the Epoch on; beyond that they may be late
  (one hour becomes two), early (256 minutes become 240) or right (64 hours)
  (`AlarmCorrectIff`, `ShortAlarmCorrectIff`, `DelayWitnesses`).
- `ByteArray::append` is documented to return the new size and returns the index of the new byte.
- `ByteArray::read` is commented as little endian and reads big endian (`Read`,
  `LittleEndianReadIff`).
- `drawLine` draws nothing for straight lines of 32768 pixels or more, and `writeLine` draws a wrong
  line between endpoints 32768 or more apart (`DrawLine`, `LineCorrectIff`). `writeLine` does not
  return if the larger major coordinate is 32767 (`GuardFailsIff`).
- `drawCircle` leaves the circle for radii from 16557 on, except 16642 and 16643, and `fillCircle` lacks
  its centre column for radii from 16384 on (`CircleCorrectIff`, `FillCorrectIff`).
- `fillTriangle` divides by zero when its two upper vertices are on row -32768 and the third is not
  (`UpperDivisor`), and leaves out rows of 32768 pixels or more (`FillCompleteIff`).
- `readAppend` counts the available bytes without masking the interrupt. If the end index of the ring
  wraps around during the count and fewer bytes than its maximum are there, it goes on to append zeros
  up to the maximum. This can happen exactly when 1 <= start <= end and N - start is below the maximum
  when it is called (`CountIff`, `MiscountPads`, `MiscountIff`, `ReadAppendRightIff`).
- An overrun that happens between the increment of the ring's start index and its wrap-around
  is not reported and loses the whole ring (`OverrunReportedIff`, `OverrunDuringWrap`,
  `OverrunReachable`).

## Model

| member | source | states |
|---|---|---|
| Displays.Display.WriteFillRect | STM32/display.cpp:128-139 | Adds exactly the pixels of the w by h rectangle at (x, y), coordinates going around at the end of int16, with w h writes; nothing for a width or height that is not positive. |
| Raster.SpanIs | STM32/display.cpp:128-139 | The coordinates of a strip are x, x + 1 and so on, each reduced to 16 bits. |
| Displays.Display.WriteFastVLine | STM32/display.cpp:114-118 | Adds exactly the column of h pixels from (x, y) down, going around at the end of int16. |
| Displays.Display.WriteFastHLine | STM32/display.cpp:122-126 | Adds exactly the row of w pixels from (x, y) to the right, going around at the end of int16. |
| Displays.Display.WriteLine | STM32/display.cpp:60-98 | For all endpoints for which it returns: adds exactly the pixels of the 16-bit walk, with max(abs dx, abs dy) + 1 writes; for endpoints less than 32768 apart these are exactly the pixels of `OnLine`. |
| Displays.Display.WriteSteps | STM32/display.cpp:77-97 | The loop in 16-bit arithmetic, for endpoints in order: one pixel for each major coordinate, at the minor coordinate of the walk. |
| LineGeometry.BresenhamStep | STM32/display.cpp:91-96 | The error term stays in 0 .. dx-1 and equals dx/2 - k dy + j dx after k steps and j rises; one iteration keeps j the nearest offset. |
| LineWalk.WalkIsBresenham | STM32/display.cpp:77-97 | For endpoints less than 32768 apart the 16-bit walk keeps the offset nearest and the error term in 0 .. dx-1 up to the last pixel: no overflow matters. |
| LineWalk.LineCorrectIff | STM32/display.cpp:60-98 | Where writeLine returns, it draws the nearest-pixel line if and only if the endpoints are less than 32768 apart. |
| LineWalk.StrayPixel | STM32/display.cpp:77-96 | From 32768 on, the walk has left the line at its second pixel, or at its third if 2 abs dy = dx + 1. |
| LineWalk.GuardFailsIff | STM32/display.cpp:84 | The guard x0 <= x1 of the int16 loop counter can become false if and only if the larger major coordinate is below 32767. |
| LineGeometry.LineIsFunction | STM32/display.cpp:84-97 | The line has exactly one pixel for each major coordinate between the endpoints and none beyond. |
| LineGeometry.LinePixels | STM32/display.cpp:84-97 | The line is a set of max(abs dx, abs dy) + 1 pixels, as many as are written, so none is written twice. |
| LineGeometry.LineNearest | STM32/display.cpp:81-96 | Every pixel is within half a pixel of the ideal line along the minor axis, for all slopes and directions. |
| LineGeometry.RightwardIsRounding | STM32/display.cpp:81-96 | Each pixel is the ideal point rounded to the nearest, and a tie goes to the side of the left or upper endpoint. |
| LineGeometry.LineConnected | STM32/display.cpp:91-96 | Pixels of neighbouring major coordinates differ by at most one in the minor coordinate: the line is 8-connected. |
| LineGeometry.LineEndpoints | STM32/display.cpp:60-62 | Both endpoints are on the line. |
| LineGeometry.LineSymmetric | STM32/display.cpp:64-75 | The pixel set does not depend on the order of the endpoints. |
| LineGeometry.StraightLines | STM32/display.cpp:188-201 | On vertical and horizontal lines the Bresenham pixel set is the strip that the fast paths fill. |
| Displays.Display.DrawLine | STM32/display.cpp:183-208 | Straight lines: exactly `OnLine` below 32768 pixels and nothing from there on, for all int16 endpoints. Other lines: exactly what writeLine draws, which is `OnLine` for endpoints less than 32768 apart. |
| Displays.Display.DrawCircle | STM32/display.cpp:212-249 | For all arguments: the pixels of the 16-bit loop. For the radii 0 to 16556, 16642 and 16643 these are exactly the pixels of `OnCircle` about the centre, coordinates going around at the end of int16. |
| Displays.Display.DrawCircleHelper | STM32/display.cpp:251-294 | For all arguments: the pixels of the 16-bit loop in the chosen quadrants. For the same radii these are exactly the circle's pixels there, without the four axis points unless the radius is 1. |
| CircleGeometry.CornersCombine | STM32/display.cpp:272-292 | The corner bits work independently of each other. |
| CircleGeometry.MidpointStep | STM32/display.cpp:227-237 | Both branches of the loop keep ddF_x = 2x+1, ddF_y = -2y, f = (x+1)^2 + y^2 - y - r^2 and abs(x^2 + y^2 - r^2) <= y, and keep y the integer nearest to the circle. |
| CircleWalk.AdvanceMatches | STM32/display.cpp:227-237 | For these radii the 16-bit variables are those of the midpoint algorithm in every iteration, although ddF_y may be out of range. |
| CircleGeometry.MidpointBounds | STM32/display.cpp:215-219 | The decision term stays within 2x+1-2y .. 2x+1, and the point within y of r^2 in squared distance. |
| CircleGeometry.CircleStep | STM32/display.cpp:239-246 | An iteration adds exactly the eight mirror images of its point to the part of the circle drawn so far, also when it crosses the diagonal. |
| CircleGeometry.CircleDone | STM32/display.cpp:227-247 | When the loop ends no pixel of the circle is missing. |
| CircleWalk.CircleCorrectIff | STM32/display.cpp:212-249 | For every centre and every radius from 0 on, drawCircle draws the circle if and only if the radius is at most 16556, or 16642 or 16643. |
| CircleWalk.FillCorrectIff | STM32/display.cpp:296-339 | For every centre and every radius from 0 on, fillCircle draws the disc if and only if the radius is below 16384; from there on the centre column is missing. |
| CircleGeometry.CircleIsRim | STM32/display.cpp:212-249 | The circle consists of the outermost pixels of the disc, at most b off r^2 in squared distance where b is the longer coordinate. |
| CircleGeometry.NearestIsRounding | STM32/display.cpp:229-237 | The integer definition of nearest is rounding of the real square root. |
| Displays.Display.FillCircle | STM32/display.cpp:296-303 | For all arguments: the columns of the 16-bit loop. For radii 0 to 16383 these are exactly the pixels of `InDisc` about the centre, coordinates going around at the end of int16. |
| Displays.Display.FillCircleHelper | STM32/display.cpp:306-339 | For all arguments: the columns of the 16-bit loop on the chosen sides. For radii 0 to 16384 and lengths below 32768 these are exactly the half-discs, each column lengthened by delta rows, or shortened if delta is negative, without the centre column unless the radius is 1. |
| CircleGeometry.DiscStep | STM32/display.cpp:328-337 | The two interleaved families of columns add exactly the finished columns of the disc. |
| CircleGeometry.PulledStep | STM32/display.cpp:328-337 | With columns lengthened or shortened by delta, a step still adds exactly the columns of its point and its mirror image. |
| CircleGeometry.PulledIsStretched | STM32/display.cpp:316-337 | For delta from 0 on, the lengthened columns are the half-discs pulled apart by delta rows. |
| CircleGeometry.ShortenedIsCommon | STM32/display.cpp:316-337 | For delta up to 0 the shortened columns are what the half-discs about two centres have in common. |
| CircleGeometry.DiscCoverage | STM32/display.cpp:296-339 | The disc holds every lattice point with dx^2 + dy^2 <= r^2 and none above r^2 + r. |
| Displays.Display.DrawRoundRect | STM32/display.cpp:355-370 | For all arguments: edges and corner arcs in 16 bits. Without wrap-around these are exactly the four edges and the four arcs; from width and height 2r on (r at least 2) that is the circle pulled apart, or closed up by one row or column, and from 2r+1 on the pulled-apart outline for every radius. |
| Displays.Display.FillRoundRect | STM32/display.cpp:373-384 | For all arguments: rectangle and half-discs in 16 bits. Without wrap-around the middle rectangle is filled at every size; from width and height 2r on (r at least 2) the fill is exactly the disc pulled apart, or closed up by one row or column, and from 2r+1 on for every radius. |
| RoundRectGeometry.RoundRectParts | STM32/display.cpp:360-368 | The four edges and the four corner arcs together are the pulled-apart circle, no more and no less. |
| RoundRectGeometry.FillIsFolded | STM32/display.cpp:373-384 | From width and height 2r on the parts of the fill are exactly the disc, folded about the centres of its corners. |
| RoundRectGeometry.LowFill | STM32/display.cpp:373-384 | At every height up to 2r the fill is the middle rectangle and, at the sides, what the discs about the upper and the lower corner centre have in common. |
| RoundRectGeometry.OutlineParts | STM32/display.cpp:355-370 | At every size the outline is four edges and four quarters of circles, each said in coordinates. |
| RoundRectGeometry.OutlineIsFolded | STM32/display.cpp:355-370 | From width and height 2r on the outline is the circle, folded about the centres of its corners. |
| RoundRectGeometry.RoundRectIsCircle | STM32/display.cpp:355-384 | At w = h = 2r+1 the outline and the fill are the circle and the disc about (x+r, y+r). |
| RoundRectGeometry.RoundRectNested | STM32/display.cpp:355-384 | The outline is part of the fill and the fill of the w by h rectangle. |
| RoundRectGeometry.RoundRectInside | STM32/display.cpp:355-384 | The outline stays in the w by h rectangle for every radius below both; the fill stays in its rows for every radius and in its columns for every radius below the width. |
| Displays.Display.FillTriangle | STM32/display.cpp:398-497 | Adds exactly the pixels of `InFill` in rows of fewer than 32768 pixels, with as many writes as these are, no division by zero and no overflow that matters; that is all of `InFill` if the row of the middle vertex is such a row. |
| Displays.Display.FillUpperRows | STM32/display.cpp:450-475 | The first scanline loop draws the rows above y1, and y1 when the lower edge is flat, by running sums equal to the longhand products. |
| Displays.Display.FillLowerRows | STM32/display.cpp:477-495 | The second loop draws the remaining rows. |
| TriangleGeometry.FillCovers | STM32/display.cpp:398-497 | Every lattice point of the closed Euclidean triangle is painted. |
| TriangleGeometry.FillIsTight | STM32/display.cpp:461-494 | No painted pixel is a whole pixel or more to the left, or to the right, of both edges that bound its row. |
| TriangleGeometry.EdgeCrossing | STM32/display.cpp:461-494 | Each end of a row is the exact crossing with its edge, rounded toward the edge's upper vertex. |
| TriangleGeometry.FillBox | STM32/display.cpp:398-497 | The three vertices are painted and every painted pixel is in their bounding box. |
| TriangleGeometry.FillSymmetric | STM32/display.cpp:406-421 | The painted set does not depend on the order of the vertices. |
| TriangleGeometry.FillPixels | STM32/display.cpp:461-495 | The drawn fill has as many pixels as it makes writes: each row is drawn once or not at all. |
| TriangleGeometry.FillCompleteIff | STM32/display.cpp:426-495 | No row is missing if and only if the row of the middle vertex has fewer than 32768 pixels. |
| TriangleGeometry.FullRowIsMiddle | STM32/display.cpp:461-494 | If any row is as wide as the vertices are apart, so is the row of the middle vertex. |
| TriangleGeometry.UpperDivisor | STM32/display.cpp:456-463 | The first loop meets a zero divisor if and only if the two upper vertices lie on row -32768, where the last row wraps around. |
| DateTimes.IsLeapYear | STM32/datetime.cpp:143-150 | The branches decide the Gregorian leap-year rule. |
| DateTimes.ComputeDateFromEpoch | STM32/datetime.cpp:79-109 | For every 32-bit timestamp: a valid date, not after 2106, whose POSIX day number is the timestamp divided by 86400. |
| Calendar.DayNumberOrder | STM32/datetime.cpp:79-109 | POSIX day numbers follow calendar order, so the date with a given day number is unique. |
| DateTimes.ComputeTimeFromEpoch | STM32/datetime.cpp:111-124 | For every 32-bit timestamp: a valid time of day whose seconds are the timestamp modulo 86400. |
| DateTimes.TimeOfDay | STM32/datetime.cpp:111-124 | Those fields are a valid time of day and add up to the timestamp modulo 86400. |
| DateTimes.ComputeEpochFromDateTime | STM32/datetime.cpp:126-141 | The result of the two counting loops in 32-bit arithmetic, for every date and time, valid or not. |
| DateTimes.EpochIsUnixTime | STM32/datetime.cpp:126-141 | For every valid date from 1970 on the result is the POSIX time, one day ahead in January and February of leap years, modulo 2^32. |
| DateTimes.EpochCorrectIff | STM32/datetime.cpp:130-134 | The result is the POSIX time if and only if the date is not in January or February of a leap year. |
| DateTimes.LeapYearWitnesses | STM32/datetime.cpp:126-141 | 1 January 1972 is computed a day late, 1 March 1972 is not. |
| DateTimes.RoundTrip | STM32/datetime.cpp:79-141 | Decomposing any timestamp and composing it again gives it back, plus one day in January and February of leap years, without wrap-around. |
| DateTimes.EpochMonotone | STM32/datetime.cpp:126-141 | From 1970 to 2105 timestamps never run against the calendar, and only 29 February and 1 March of the same year share one. |
| Alarms.NewTime | STM32/datetime.cpp:5-11 | Minutes and seconds below 60; the total in seconds is kept if and only if neither 8-bit carry overflows, and otherwise is short by exactly 256 minutes or 256 hours. |
| Alarms.CarryingTwice | STM32/datetime.cpp:35-38 | Copying a time, which runs the constructor again, changes nothing after the first time. |
| Alarms.FromSeconds | STM32/datetime.cpp:21-33 | The fields add up to s + 240 (15 (floor(s / 3600) mod 256) - 64 floor(s / 15360)), which is s if and only if that factor is zero. |
| Alarms.EffectiveDelaySlip | STM32/datetime.cpp:5-33 | For every 32-bit delay, the closed form of the effective delay, and that it is s + 240 Slip(s). |
| Alarms.AlarmTime | STM32/system.cpp:250 | A valid time: that of now plus the effective delay less a day, modulo 2^32; it is s seconds after now if and only if Slip(s) is a multiple of 360 and the sum does not wrap. |
| Alarms.AlarmSeconds | STM32/system.cpp:265 | The alarm is the time of day of now plus the effective delay minus a day, modulo 2^32: the sum goes through the zero date. |
| Alarms.AlarmMeetsDelayIff | STM32/datetime.cpp:63 | That day does not change the time of day if and only if now plus the effective delay is at least a day and below 2^32 plus a day. |
| Alarms.EffectiveDelayShort | STM32/datetime.cpp:21-33 | Below 256 minutes the effective delay is s + 3600 floor(s / 3600). |
| Alarms.AlarmCorrectIff | STM32/system.cpp:250 | For every now and s: the alarm is s seconds from now if and only if 15 (floor(s / 3600) mod 256) - 64 floor(s / 15360), less 3840 if the hours overflow, is a multiple of 360 and now plus the effective delay is at least a day and below 2^32 plus a day. |
| Alarms.ShortAlarmCorrectIff | STM32/system.cpp:250 | Below 256 minutes: if and only if s < 3600 and now + s is at least a day. |
| Alarms.DelayWitnesses | STM32/datetime.cpp:21-33 | One hour becomes two, 256 minutes become 240, and 64 hours are right. |
| CircularBuffers.CircularBuffer.Size | STM32/circular_buffer.cpp:15-21 | The number of bytes held, although the sum may wrap in 32 bits. |
| CircularBuffers.CircularBuffer.Clear | STM32/circular_buffer.cpp:23-26 | Empties the queue. |
| CircularBuffers.CircularBuffer.Push | STM32/circular_buffer.cpp:52-71 | Leaves the last N-1 bytes of what was held followed by the data; reports an overrun if and only if they did not all fit. |
| CircularBuffers.CircularBuffer.PushByte | STM32/circular_buffer.cpp:56-68 | One byte: the queue grows, or the oldest byte goes; the new memory and indices are those of the interrupt step. |
| CircularBuffers.CircularBuffer.Pull | STM32/circular_buffer.cpp:73-90 | Moves the first min(maxData, size) bytes out, or all of them if maxData is zero, in order, and touches nothing else. |
| CircularBuffers.CircularBuffer.PullByte | STM32/circular_buffer.cpp:45-50 | The first byte, or 0 when there is none. |
| CircularBuffers.Replay | STM32/circular_buffer.cpp:15-90 | Any history of operations on a real buffer ends with the contents, and has delivered the bytes, of the bounded queue. |
| ByteQueue.Effects | STM32/circular_buffer.cpp:23-90 | What a push, a pull with any maximum and a clear leave, deliver and drop. |
| ByteQueue.NothingLost | STM32/circular_buffer.cpp:15-90 | Over any history the bytes that left (delivered, dropped or cleared), in order, followed by those held, are the bytes received. |
| ByteQueue.Conservation | STM32/circular_buffer.cpp:15-90 | Received = delivered + dropped + cleared + resident. |
| Rings.RingWrite | STM32/circular_buffer.cpp:58-67 | A write at the end index grows the ring, or meets the start exactly when N-1 bytes are held. |
| Serials.Serial.RxInterrupt | STM32/uart.cpp:179-183 | The handler appends the received byte, dropping the oldest of 31. |
| Serials.Serial.Receive | STM32/uart.cpp:179-183 | Any number of interrupts leave the last 31 of the bytes pending and received. |
| Serials.Serial.ReadInto | STM32/uart.cpp:202-211 | Moves the first min(maxBytes, available) bytes out, or all of them if maxBytes is zero, in order. |
| Serials.Serial.ReadByte | STM32/uart.cpp:213-219 | The first available byte, or 0. |
| Serials.Serial.ReadAppend | STM32/uart.cpp:221-230 | Without interrupts: moves the first min(available, maxBytes) bytes to the end of the array. With interrupts: `ReadAppendCorrect`. |
| UartInterleaving.TornSize | STM32/circular_buffer.cpp:15-21 | With interrupts between its two reads of the end index, size() is still zero exactly when the ring is empty at the second read, and is the number of bytes held if and only if the end index did not wrap around in between. |
| UartInterleaving.CountIff | STM32/uart.cpp:221-224 | readAppend settles on what is available, up to its maximum, if and only if its count is not torn by a wrap-around of the end index or the maximum is available anyway. |
| UartInterleaving.PushKeepsInv | STM32/uart.cpp:179-183 | An interrupt at any point of the main program adds its byte behind the others and keeps the invariant, if the ring has room. |
| UartInterleaving.StepKeepsInv | STM32/uart.cpp:213-251 | Every step of readUntil, readAppend, the loop of the Sigfox driver, size, read and pull keeps the invariant, the start index passing through N included, unless readAppend miscounts. |
| UartInterleaving.RunKeepsInv | STM32/uart.cpp:179-251 | The invariant holds in every state of every interleaving without overrun, for readAppend without miscount. |
| UartInterleaving.ReadUntilCorrect | STM32/uart.cpp:233-251 | In every interleaving without overrun, delivered bytes, byte in hand and ring contents are in order the bytes received; on return the result is the stream up to the first endc or its first maxBytes bytes. |
| UartInterleaving.DrainCorrect | STM32/axsigfox.cpp:20-49 | In every interleaving without overrun the Sigfox loop takes the bytes received in order, at least those that were there when it began, and the rest is in the ring. |
| UartCounting.ReadAppendCorrect | STM32/uart.cpp:221-230 | In every interleaving without overrun of a call that is not at risk, or does not miscount, delivered bytes, byte in hand and ring contents are in order the bytes received; the result is a prefix of them, with at least what was there at the call, up to the maximum. |
| UartFaults.MiscountIff | STM32/uart.cpp:221-224 | An interleaving without overrun in which readAppend miscounts exists if and only if, when it is called, 1 <= start <= end and N - start is below its maximum. |
| UartFaults.ReadAppendRightIff | STM32/uart.cpp:221-230 | readAppend returns the right result in every interleaving without overrun if and only if that does not hold (for N and maximum together up to 2^32). |
| UartFaults.RiskBound | STM32/uart.cpp:221-224 | No call is at risk that asks for at most one byte or for no more than there is. |
| UartInterleaving.Progress | STM32/uart.cpp:221-247 | Once a byte is available, ten steps of readUntil or the Sigfox loop, or twelve of readAppend, deliver one or finish, however they are interrupted. |
| UartReturns.DrainReturns | STM32/axsigfox.cpp:20-49 | Left alone at any point, the Sigfox loop ends and has taken everything that has arrived. |
| UartReturns.UntilReturns | STM32/uart.cpp:233-251 | Left alone at any point, readUntil returns the right result once endc or its maximum has arrived. |
| UartReturns.AppendReturns | STM32/uart.cpp:221-230 | Left alone from its call on, readAppend returns what is there, up to its maximum. |
| UartFaults.MiscountPads | STM32/uart.cpp:221-230 | After a miscount readAppend, left alone, returns its maximum: the bytes received and then zeros that nobody sent. |
| UartFaults.OverrunReportedIff | STM32/circular_buffer.cpp:52-71 | The flag of push is set if and only if the ring is full and the start index is not between its increment and its wrap-around. |
| UartFaults.RoomNeeded | STM32/uart.cpp:179-183 | A push keeps the invariant if and only if the ring has room. |
| UartFaults.OverrunDuringWrap | STM32/circular_buffer.cpp:34-68 | A push into a full ring between increment and wrap of the start index is not reported, and after the wrap the ring counts as empty. |
| UartFaults.OverrunReachable | STM32/circular_buffer.cpp:34-68 | For every ring of two bytes or more, memory, reader and byte there is a run without overrun to that point with the ring full. |
| UartCalls.CallsConserve | STM32/uart.cpp:179-251 | Over any series of finished calls the results, one behind the other, and the bytes in the ring are the bytes that were there and those that have arrived. |
| UartCalls.DrainCallExists | STM32/axsigfox.cpp:20-49 | Every ring can be drained by a finished call. |
| ByteArrays.ByteArray.constructor | STM32/byte_array.cpp:12-23 | size copies of the filler, with room for twice the size and at least 5. |
| ByteArrays.ByteArray.FromBuffer | STM32/byte_array.cpp:25-33 | The bytes of the buffer, with no room to spare. |
| ByteArrays.ByteArray.Reserve | STM32/byte_array.cpp:161-168 | The contents are kept; the buffer moves exactly when it is too small. |
| ByteArrays.ByteArray.Append | STM32/byte_array.cpp:226-234 | The byte is added at the end and its index returned; the buffer grows by 8 exactly when it is full. |
| ByteArrays.AppendEach | STM32/byte_array.cpp:226-234 | n appends to a default array reallocate ceil((n - 5) / 8) times for n > 5 and never before. |
| ByteArrays.ByteArray.AppendAll | STM32/byte_array.cpp:102-111 | The contents of the argument are added at the end, also when the argument is the array itself. |
| ByteArrays.ByteArray.Resize | STM32/byte_array.cpp:144-159 | A prefix, or the contents followed by fillers. |
| ByteArrays.ByteArray.Swap | STM32/byte_array.cpp:219-224 | The two arrays exchange buffers and sizes. |
| ByteArrays.ByteArray.Split | STM32/byte_array.cpp:192-208 | Keeps the bytes before idx and returns the rest, for any idx. |
| ByteArrays.ByteArray.ReverseSplit | STM32/byte_array.cpp:210-215 | Returns the bytes before idx and keeps the rest, for any idx. |
| ByteArrays.ByteArray.Find | STM32/byte_array.cpp:71-78 | The first occurrence at or after startPos, or the size. |
| ByteArrays.ByteArray.StartsWith | STM32/byte_array.cpp:59-69 | True if and only if the contents begin with the prefix. |
| ByteArrays.ByteArray.AsHex | STM32/byte_array.cpp:236-263 | The upper-case hexadecimal text of the contents with separators between bytes. |
| ByteArrays.ByteArray.FromHex | STM32/byte_array.cpp:317-346 | The bytes of consecutive pairs of hexadecimal digits, everything else skipped and an odd last digit ignored. |
| Hex.DigitTable | STM32/byte_array.cpp:236-346 | The digits are the characters 0 to 9, A to F and a to f, with their values. |
| Hex.NoOtherDigit | STM32/byte_array.cpp:325-331 | No other character is a digit. |
| Hex.EncodeAt | STM32/byte_array.cpp:236-263 | Where the digits of each byte and the separators stand in the text, and how long it is. |
| Hex.DecodeEncode | STM32/byte_array.cpp:236-346 | fromHex(b.asHex(sep)) = b for sep 0 and every separator that is not a hexadecimal digit. |
| Hex.EncodeDecode | STM32/byte_array.cpp:236-346 | fromHex(s).asHex() is the upper-cased sequence of hexadecimal digits of s, cut to even length. |
| ByteArrays.ByteArray.Serialize | STM32/byte_array.h:351-370 | The k bytes of the number in two's complement, most significant first, or in the opposite order for little endian. |
| ByteArrays.ByteArray.Read | STM32/byte_array.h:376-389 | The signed or unsigned number whose k bytes, most significant first, are at idx, or 0 when there are fewer. |
| BigEndian.SerializeRead | STM32/byte_array.h:351-389 | What was serialized between any other bytes is read back at its offset, for signed and unsigned types. |
| BigEndian.ReadSerialize | STM32/byte_array.h:351-389 | Serializing what was read gives back the k bytes. |
| BigEndian.LittleEndianReadIff | STM32/byte_array.h:369-389 | What was serialized in little endian is read back correctly if and only if its bytes are the same in either order. |
| BigEndian.LittleEndianWitness | STM32/byte_array.h:369-389 | The number 1 in two bytes comes back as 256. |
| AxSigfox.AXSigfox.Update | STM32/axsigfox.cpp:10-52 | Hands on exactly the messages of the stream, keeps the unfinished line, and applies the timeout and the messages to the modem state; the buffer index stays below 64. |
| AxSigfox.AXSigfox.ReceiveByte | STM32/axsigfox.cpp:20-49 | One byte: the buffer holds the last n mod 64 bytes of the n received since the last line feed. |
| AxSigfox.AXSigfox.ProcessMessage | STM32/axsigfox.cpp:54-72 | OK ends a pending message, RX= stores the decoded data and is reported. |
| AxSigfox.PendingIff | STM32/axsigfox.cpp:59-63 | The pending flag survives a series of messages if and only if none begins with OK. |
| AxSigfox.LastReception | STM32/axsigfox.cpp:64-68 | The data received are those behind RX= in the last message that begins with it. |
| AxSigfox.NoReception | STM32/axsigfox.cpp:54-72 | No other message changes them. |
| AxSigfox.ReceptionIff | STM32/axsigfox.cpp:64-68 | A reception is reported if and only if some message begins with RX=. |
| AxSigfox.TimedOutIff | STM32/axsigfox.cpp:12-16 | A frame is given up if and only if more than 60000 milliseconds have passed since it was sent, also when the clock has wrapped around. |
| AxSigfox.TakenIsStream | STM32/axsigfox.cpp:10-52 | Taking bytes one at a time, beginning with an unfinished line, yields the messages of the lines of that line and the bytes, looked at one by one. |
| AxSigfox.PayloadIntactIff | STM32/axsigfox.cpp:25-48 | A payload and carriage return arrive intact if and only if the payload has 1 to 62 bytes. |
| AxSigfox.NoCarriageReturn | STM32/axsigfox.cpp:25-36 | A line that does not end in a carriage return is ignored. |
| AxSigfox.StartsOver | STM32/axsigfox.cpp:41-47 | 64 bytes at the front of a line are forgotten. |
| AxSigfox.SentPayloadIntactIff | STM32/axsigfox.cpp:20-48 | A payload without line feed, sent with carriage return and line feed, is the one message of the stream if and only if it has 1 to 62 bytes. |
| AxSigfox.SentWithoutReturn | STM32/axsigfox.cpp:25-36 | In the stream too: without a carriage return no message is handed on. |
| AxSigfox.SessionIsStream | STM32/axsigfox.cpp:10-52 | Over any series of updates, messages and unfinished line are those of the concatenated receipts, and the modem state is that of the messages, with the pending flag cleared if any update came after the timeout. |
| AxSigfox.SessionPendingIff | STM32/axsigfox.cpp:10-72 | After any series of updates the flag is set if and only if it was, no update came after the timeout and no message of the stream begins with OK. |
| AxSigfox.Replay | STM32/axsigfox.cpp:10-52 | The same of the driver object, for bytes that arrive between the updates. |
| DriverCalls.AxSigfoxInterrupted | STM32/axsigfox.cpp:10-52 | The same with the interrupt at any point of the updates: the bytes taken and the bytes in the ring are in order the bytes received. |
| Gps.GPS.UpdateRx | STM32/gps.cpp:87-119 | Hands on every complete line of buffer and receipts, in order and to the right parser, and keeps exactly the rest. |
| Gps.GPS.HandleLine | STM32/gps.cpp:98-115 | One iteration cuts the first line off, or finds none and changes nothing. |
| Gps.ClassifyHeads | STM32/gps.cpp:105-115 | Which of $GPGGA, $GPRMC and $GPVTG at the front of a line sends it to which parser, with a zero byte behind it. |
| Gps.ClassifyEach | STM32/gps.cpp:87-119 | Every line is handed on once, in order. |
| Gps.SessionIsStream | STM32/gps.cpp:87-119 | The sentences are those of the stream, however it was split over updates and whatever was left from before. |
| Gps.Replay | STM32/gps.cpp:87-119 | The same of the driver object, for bytes that arrive between the updates. |
| DriverCalls.GpsInterrupted | STM32/gps.cpp:87-119 | The same with the interrupt at any point of updates that do not miscount. |
| LineFraming.LinesPartition | STM32/gps.cpp:96-103 | Lines and residue concatenate to the stream; each line ends in its only line feed and the residue has none. |
| LineFraming.ChunksIrrelevant | STM32/gps.cpp:87-103 | Cutting lines from portions, beginning with an unfinished line, gives the lines and the residue of the whole. |
| LineFraming.PatientChunksIrrelevant | STM32/rn2483.cpp:88-110 | The same when a buffer of fewer than two bytes is held back. |
| Rn2483.RN2483.Update | STM32/rn2483.cpp:88-146 | Applies every line of buffer and receipts to the link state, holding back a buffer of fewer than two bytes, and keeps exactly the rest. |
| Rn2483.RN2483.HandleLine | STM32/rn2483.cpp:95-110 | One iteration cuts the first line off, or changes nothing if there is none or fewer than two bytes are held. |
| Rn2483.RN2483.Dispatch | STM32/rn2483.cpp:112-144 | What each message prefix does to the connected flag and the pending downlink. |
| Rn2483.SessionIsStream | STM32/rn2483.cpp:88-146 | The link state and the buffer depend on the stream only, not on how it was split over updates. |
| Rn2483.Replay | STM32/rn2483.cpp:88-146 | The same of the driver object, for bytes that arrive between the updates. |
| DriverCalls.Rn2483Interrupted | STM32/rn2483.cpp:88-146 | The same with the interrupt at any point of updates that do not miscount. |
| Rn2483.LastVerdict | STM32/rn2483.cpp:112-134 | The connected flag tells whether the last message that decides it was something else than a denial. |
| Rn2483.NoVerdict | STM32/rn2483.cpp:112-134 | Without a message that decides it the flag stays as it was. |
| Rn2483.LastDownlink | STM32/rn2483.cpp:127-144 | The pending downlink is what follows the head of the last reception on port 1 longer than eleven bytes. |
| Rn2483.NoDownlink | STM32/rn2483.cpp:112-144 | Nothing else changes it. |
| LineFraming.PatientOrNot | STM32/rn2483.cpp:95-110 | Lines and rest are those of the plain framer, except that a final line of a single line feed is held back. |

## Left out

- WriteLine: lines whose larger major coordinate is 32767 are excluded, because for them the program
  does not return (`GuardFailsIff`).
- FillTriangle: four kinds of triangles that are not flat are excluded: a last row of 32767, beyond which
  the row counter cannot get (as in `GuardFailsIff`); an x spread or a y spread above 32767, at which the
  differences of the coordinates wrap; and two upper vertices on row -32768 (`UpperDivisor`).
  FillUpperRows and FillLowerRows exclude the same.
- ReadUntilCorrect, DrainCorrect, ReadAppendCorrect: interleavings with an overrun are excluded;
  `UartFaults` says what an overrun does.
- ReadAppend: the method runs without interrupts; the interleaving is in `UartCounting`.
- Replay: in the three methods of this name bytes arrive between updates only; the interleaved updates
  are in `DriverCalls`. GpsInterrupted, Rn2483Interrupted: updates of these drivers that miscount are
  excluded. They read with a maximum of 65535 from a ring of 32 bytes, so they are at risk whenever
  1 <= start <= end, and a miscount fills their buffers with zeros (`MiscountPads`).
- Read: an idx beyond the size, at which the program's size check wraps, is excluded.
- UpdateRx: the returned flag, which depends on the parsed fields, is not modelled.
- SessionIsStream: frames sent between updates are not part of the series; sendFrame is not modelled.
- Sizes of byte arrays are unbounded and allocation always succeeds; moved-from arrays, shrink,
  comparison and integer parsing are not modelled. The drivers' stored payloads are plain byte
  sequences.
- The loop bodies of drawCircle, drawCircleHelper, fillCircleHelper, asHex, push, the framers and
  the two halves of drawRoundRect and fillTriangle are methods of their own here.
- Colours, text, bitmaps, plain rectangles and triangle outlines, orientation and touch input.
- Comparison operators of dates, addition of dates, the real-time clock and the power modes.
- GPS field parsing and distances (floating point and sscanf), and what is kept of them.
- Modem dialogues that write and wait, console output, files, and all register access; time,
  interrupts and received bytes are parameters.
