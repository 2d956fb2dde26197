# vsdf core, modelled in Dafny

vsdf renders a signed-distance-field fragment shader with Vulkan. It does this
either in a window that reloads the shader when its file changes, or offline
into an FFmpeg video. This project models vsdf's decision logic as pure Dafny
functions and proves properties of them. Vulkan, GLFW, FFmpeg, glslang and the
operating system become parameters: the functions take an outcome or a list of
returned values where the program would make a call.

One module per part of the program:

- `Cli`: the command line of `main.cpp`.
  - Log-level names.
  - `std::stoul`/`std::stoi` and the `uint32_t` conversions of count flags.
  - The argument loop, new-toy file names and the checks after the loop.
  - The round trip from settings to a printed command line and back.
- `Glfw`: the `GLFW_PLATFORM` choice of `initGLFW`.
- `LinuxWatcher`: the inotify watcher.
  - The walk over the packed `inotify_event` records.
  - A debounce that moves `lastEventTime` on every match.
- `WindowsWatcher`: the Windows watcher.
  - The `FILE_NOTIFY_INFORMATION` chain.
  - The action filter.
  - A debounce that moves `lastEventTime` only when the callback runs.
  - `startWatching` and `stopWatching` as state changes.
- `MacWatcher`: the flag test of `fsEventsCallback`.
- `Ppm`: the debug PPM writer and the test reader, with their round trip.
- `PixelBuffers`: `Frame`/`ReadbackFrame` allocation, the readback format table and the BGRA-to-RGB conversion of `debugReadbackOffscreenImage`.
- `RingSlots`: ring-size validation, the frame-to-slot mapping and the slot array set-up.
- `RingPipeline`: the producer/consumer pipeline of `renderFrames`, as a transition system.
  - An invariant that holds in every reachable state.
  - Frame order, queue bounds and absence of deadlock.
  - The failure paths.
  - `startEncoding` and `stopEncoding` around the encoder.
- `FfmpegEncoder`: `FfmpegEncoder` as an open/encode/flush/close state machine over the calls it makes.
- `VkSelect`: device, queue family, surface format, image count, present mode and composite alpha selection in `vkutils.h`.
- `SdfRenderer`: the memory-type search, the readback buffer size, the frame counters of `gameLoop`, and the SPIR-V path fallback.
- `ShaderUtils`: the extension-to-stage table, source reading, and the input to `compileFileToSpirv`.
- `FileUtils`: `loadBinaryFile` and the little-endian word view of a SPIR-V file.
- Helper modules:
  - `Paths`: `std::filesystem` file name, extension and parent path.
  - `Text`: `tolower` and decimal text.
  - `MachineInts`: `uint32_t`/`uint64_t` wrap-around.
  - `Arith`, `Search` and `Wrappers`.

Where "## Findings" records a defect, the model keeps both versions. The program's own paths use the behaviour as written: the argument loop truncates counts, `ShaderUtils.CompileInput` uses the as-written stage table, `Ppm.WritePPMAsWritten` is the writer with its original guard, `Ppm.ReadPPM` with `WrapsSizeT` computes the byte count in 64-bit `size_t`, `LinuxWatcher.WatchFile` compares names through `LinuxWatcher.WalkAsWritten`, and `SdfRenderer.GameLoop` with `CreatedOnce` makes the fences and semaphores only for the first swapchain. The corrected definitions sit beside them, and the intended properties are proved about those.

## Model

| member | source | states |
|---|---|---|
| Cli.ParseLogLevel | src/main.cpp:116-136 | A level is accepted exactly when its lower-cased text is one of the level names. The error message quotes the argument as given. |
| Cli.LogLevelRoundTrip | src/main.cpp:116-136 | Every level name, in any mix of case, parses back to that level. |
| Cli.LogLevelIgnoresCase | src/main.cpp:116-136 | Parsing a string and parsing its lower-cased form agree. |
| Cli.Stoul | src/main.cpp:202 | `std::stoul` yields a value below 2^64 and fails with invalid_argument exactly when the text, after leading white space, has no digits. |
| Cli.Stoi | src/main.cpp:296 | `std::stoi` yields a value in the `int` range and fails with invalid_argument exactly when there are no digits. |
| Cli.StoulDecimal | src/main.cpp:202 | `std::stoul` of the decimal text of any `unsigned long` gives that number back. |
| Cli.CountValueAsWritten | src/main.cpp:197-210 | As written: the value stored is the `stoul` result truncated to 32 bits, and only a truncated zero is refused. |
| Cli.AsWrittenCountWraps | src/main.cpp:227-245 | As written, `--ffmpeg-width 4294967297` is accepted as width 1 and `--frames 4294967296` as 0 frames. |
| Cli.CountValue | src/main.cpp:197-283 | Corrected count flag: accepted exactly when the number fits in 32 bits (and is non-zero where zero is refused), and then stored unchanged. A larger number is an out-of-range error naming the flag. |
| Cli.CountValueAgrees | src/main.cpp:197-283 | On every value below 2^32 the corrected and the as-written conversions agree. |
| Cli.CountRoundTrip | src/main.cpp:197-210 | The decimal text of any 32-bit count parses back to that count. |
| Cli.ApplyValue | src/main.cpp:227-326 | One value flag applied to the options, with counts converted either as written (truncated to 32 bits) or range checked. A successfully applied `--ffmpeg-fps`, `--ffmpeg-width`, `--ffmpeg-height` or `--ffmpeg-ring-buffer-size` leaves a positive value in the options. |
| Cli.MissingValueRejected | src/main.cpp:197-326 | A flag that needs a value, given last, is an error naming the flag. |
| Cli.ValueFlagConsumesNext | src/main.cpp:197-326 | A value flag consumes exactly the next argument. Parsing stops with the flag's error or continues on the rest with the updated options. |
| Cli.ZeroSizesRejected | src/main.cpp:227-283 | Width, height or ring size 0 is refused with "requires a positive integer value". |
| Cli.NonPositiveFpsRejected | src/main.cpp:290-304 | An fps of zero or below is refused. |
| Cli.NewToyName | src/main.cpp:175-180 | `--new-toy` takes the next argument as the toy name only when that argument is empty or does not start with '-'. |
| Cli.ShaderFileIsFirstPlainArgument | src/main.cpp:387-393 | The first argument not starting with "--" becomes the shader file, and later plain arguments are ignored. |
| Cli.UnknownFlagRejected | src/main.cpp:387-393 | Any other argument starting with "--" is an "Unknown flag" error. |
| Cli.ParseCommandLine | src/main.cpp:163-393 | The command-line loop as written, counts truncated to 32 bits. No arguments at all is the "No shader file provided." error. |
| Cli.WideWidthValue | src/main.cpp:227-245 | For every decimal width from 2^32 up to the `unsigned long` limit: as written the width kept is the value modulo 2^32, and a remainder of 0 is "requires a positive integer value". Range checked it is the out-of-range error. |
| Cli.WideWidthOnCommandLine | src/main.cpp:163-245 | The same holds for the whole command line `--ffmpeg-width <n>`. |
| Cli.StoiSigned | src/main.cpp:296 | `std::stoi` of the decimal text of any `int`, negative ones included, gives that number back. |
| Cli.SettingRoundTrip | src/main.cpp:165-393 | The arguments printed for one setting are consumed by the loop exactly as that setting, and the loop goes on with the rest. |
| Cli.CommandLineRoundTrip | src/main.cpp:165-393 | Any command line printed from expressible settings parses, under either count conversion, to exactly those settings applied in order. |
| Cli.ParseCommandLineRoundTrip | src/main.cpp:163-393 | A non-empty printed command line gives the defaults with the settings applied in order. |
| Cli.TemplateFor | src/main.cpp:95-100 | The plot template is used exactly for the template name "plot". |
| Cli.NewToyPath | src/main.cpp:75-93 | A name ending in ".frag" is used as is, and any other non-empty name gets ".frag" appended. |
| Cli.NewToyPathIsFrag | src/main.cpp:75-93 | Every new-toy path, random or named, has the extension ".frag". |
| Cli.Decide | src/main.cpp:396-451 | Rendering needs an existing ".frag" shader. An output path without `--frames` is an error. An offline render has both an output path and a frame count, and an online run has no output path. |
| Cli.ShaderAloneRendersOnline | src/main.cpp:400-451 | A command line naming only an existing ".frag" shader collects the defaults with that shader, and `run` renders it on screen. |
| Cli.OutputAndFramesRenderOffline | src/main.cpp:407-446 | A shader, an output file and a frame count on the command line are collected as given, and `run` renders offline with those options. |
| Cli.OutputWithoutFramesRefused | src/main.cpp:407-412 | A shader and an output file without `--frames` are collected, and `run` refuses them with the missing-frames error. |
| Cli.NewToyCreatesFile | src/main.cpp:396-399 | `--new-toy NAME` writes the toy's ".frag" file from the default template, or fails when that file already exists. |
| Glfw.SelectPlatform | include/glfwutils.h:28-56 | An unset or empty `GLFW_PLATFORM` selects X11. Otherwise the platform is the one whose name equals the lower-cased value, and the error message quotes that lower-cased value when none matches. |
| Glfw.SelectPlatformByName | include/glfwutils.h:30-42 | Each platform name, in any case, selects that platform. |
| Glfw.InitGlfw | include/glfwutils.h:28-61 | Initialisation succeeds exactly when the platform is valid and `glfwInit` succeeds. The platform hint is then that platform's and the client API is "no API". The platform error takes priority over the init error. |
| Glfw.DefaultsToX11 | include/glfwutils.h:48-56 | Without the variable GLFW is hinted to X11. |
| LinuxWatcher.CNameIsPrefix | src/filewatcher/linux_filewatcher.cpp:43 | `event->name` as a C string is the longest prefix without a NUL, and a NUL follows it unless it runs to the end of the bytes. |
| LinuxWatcher.WalkRoundTrip | src/filewatcher/linux_filewatcher.cpp:35-57 | Corrected walk, which reads each name only within the record's `len` bytes: walking a buffer of packed records by `EVENT_SIZE + len` recovers every record's name, in order. A record without a name gives the empty name. |
| LinuxWatcher.SeenNames | src/filewatcher/linux_filewatcher.cpp:43 | The name the loop compares is the record's own name whenever the record has one (`len > 0`). |
| LinuxWatcher.AsWrittenWalk | src/filewatcher/linux_filewatcher.cpp:35-57 | The walk as written, over a read of packed records into an array that holds older bytes after them, visits every record once, in order. For a named record it compares that record's name. For a record with `len` 0 it compares the C string that starts right after the header: the next record's header, or the older bytes. |
| LinuxWatcher.NamedRecordsAgree | src/filewatcher/linux_filewatcher.cpp:35-57 | When every record read has a name, the walk as written and the corrected walk both give exactly the records' names. |
| LinuxWatcher.StaleNameAtStop | src/filewatcher/linux_filewatcher.cpp:35-57 | After a read that reported a change to the watched file, the final IN_IGNORED record that `stopWatching` (lines 101-106) causes, with no name and `len` 0, lands on the same array. The walk as written then sees the watched file's name again and calls back once more if 50 ms have passed. The corrected walk sees no name. |
| LinuxWatcher.DebounceRule | src/filewatcher/linux_filewatcher.cpp:43-53 | A change fires exactly when it names the watched file and at least 50 ms passed since the previous matching change, whether or not that change fired. `lastEventTime` ends at the last match. |
| LinuxWatcher.FirstMatchFires | src/filewatcher/linux_filewatcher.cpp:25-26 | The 100 s start offset makes the first matching change fire. |
| LinuxWatcher.CloseMatchSuppressed | src/filewatcher/linux_filewatcher.cpp:44-49 | A match less than 50 ms after the previous match does not fire. |
| LinuxWatcher.BurstFiresOnce | src/filewatcher/linux_filewatcher.cpp:44-53 | Writes at 0, 30 and 60 ms fire only once, because a suppressed match still moves the clock. |
| LinuxWatcher.WatchFile | src/filewatcher/linux_filewatcher.cpp:28-57 | Over successive reads, names compared through the walk as written: the watcher fails only on a failed `read`, with "Failed to read filebuffer" and that read's reason. |
| WindowsWatcher.ChainRoundTrip | src/filewatcher/windows_filewatcher.cpp:83-128 | Following `NextEntryOffset` from offset 0 until it is 0 recovers every notification laid out in the buffer, in order. |
| WindowsWatcher.EntrySize | src/filewatcher/windows_filewatcher.cpp:126-127 | Every entry's offset is at least the fixed header and keeps DWORD alignment. |
| WindowsWatcher.Debounce | src/filewatcher/windows_filewatcher.cpp:103-121 | Only an entry with the watched name and a modified, added or renamed-new-name action can call back. |
| WindowsWatcher.CallbacksSpaced | src/filewatcher/windows_filewatcher.cpp:109-120 | Successive callbacks are at least 50 ms apart, and `lastEventTime` ends at the last callback. |
| WindowsWatcher.FirstRelevantFires | src/filewatcher/windows_filewatcher.cpp:39 | The 100 s start offset makes the first relevant change fire. |
| WindowsWatcher.DeletionNeverFires | src/filewatcher/windows_filewatcher.cpp:104-107 | A removal or renamed-old-name entry never calls back. |
| WindowsWatcher.BurstFiresEveryOther | src/filewatcher/windows_filewatcher.cpp:113-120 | Writes at 0, 30 and 60 ms fire at 0 and 60, because a skipped event leaves `lastEventTime` alone. |
| WindowsWatcher.HandleCompletion | src/filewatcher/windows_filewatcher.cpp:72-76 | A completion with zero bytes calls nothing back and keeps `lastEventTime`. |
| WindowsWatcher.StartWatching | src/filewatcher/windows_filewatcher.cpp:146-189 | A start succeeds exactly when the directory and the stop event open. It then runs, watching the path's parent directory for its file name. |
| WindowsWatcher.StartSplitsPath | src/filewatcher/windows_filewatcher.cpp:151-153 | The directory and the file name rejoin to the absolute path. |
| WindowsWatcher.StopWatching | src/filewatcher/windows_filewatcher.cpp:191-219 | Stopping a running watcher signals the stop event first. It joins the thread only if it is joinable, closes only open handles and leaves nothing open. Stopping a watcher that is not running does nothing. |
| WindowsWatcher.StopTwice | src/filewatcher/windows_filewatcher.cpp:193-194 | A second stop does nothing. |
| MacWatcher.Callbacks | src/filewatcher/mac_filewatcher.cpp:27-43 | An event calls back exactly when it is a file, created or modified, not removed, and exactly the watched path. Callbacks come in batch order. |
| MacWatcher.RemovedNeverFires | src/filewatcher/mac_filewatcher.cpp:33-36 | A removed flag blocks the callback whatever else is set. |
| MacWatcher.EveryWriteFires | src/filewatcher/mac_filewatcher.cpp:27-43 | There is no debounce: n writes to the watched file call back n times. |
| Ppm.AsWrittenCheckAdmitsOverRead | src/image_dump.cpp:16-37 | As written, the guard lets a 2x1 frame with stride 1 and one byte of data through, and the row copy then reads past the buffer. |
| Ppm.AcceptedRowsInBuffer | src/image_dump.cpp:16-37 | With the corrected guard (stride at least `width * 3`), every row copied lies inside the buffer. |
| Ppm.WritePPMAsWritten | src/image_dump.cpp:7-38 | The writer as written: refused exactly when the original guard fails or the file does not open, and otherwise it reads past the buffer exactly when some row lies outside it. Zero dimensions are the dimensions error. A dump is the header followed by the packed rows. |
| Ppm.AsWrittenDumpsOverlappingRows | src/image_dump.cpp:16-37 | A 2x2 frame with stride 3 passes the original guard and is dumped with overlapping rows, but the corrected writer refuses it. |
| Ppm.WritersAgree | src/image_dump.cpp:7-38 | Whatever the corrected writer writes, the as-written writer writes the same bytes. Whatever the as-written writer refuses, the corrected one refuses too. Where the as-written writer reads past the buffer, the corrected one reports bad dimensions. |
| Ppm.WritePPM | src/image_dump.cpp:7-38 | Corrected writer: a file is written exactly when the frame passes the corrected guard and the file opens. It is the "P6" header followed by `width * 3` bytes of each row with row padding dropped. A frame failing the original guard is always refused. |
| Ppm.DataSize | tests/ppm_utils.h:66-67 | The byte count `width * height * 3`: as written, reduced modulo 2^64 (`size_t`), so it equals the exact count exactly when that count is below 2^64; with `ExactSize` it is the exact count. |
| Ppm.ReadPPM | tests/ppm_utils.h:41-76 | A parsed image holds exactly `dataSize` bytes, and it holds one byte per colour of every pixel exactly when the count is exact or below 2^64. A missing or wrong magic word is the "not P6" error exactly. After a good magic word, a missing or non-255 maximum value is the max-value error exactly, and with 255 the result is that of reading the payload. |
| Ppm.ParseHeader | tests/ppm_utils.h:47-64 | The header part of the reader: "not P6" exactly when the magic word is missing or wrong; otherwise the max-value error exactly when the numbers do not parse or the maximum is not 255; otherwise the parsed width and height. |
| Ppm.ReadPayload | tests/ppm_utils.h:64-75 | The payload read fails exactly when fewer than `dataSize` bytes follow the single separator byte, and then with the "truncated" error. Otherwise the data is exactly the `dataSize` bytes after the separator. |
| Ppm.ReadsRest | tests/ppm_utils.h:64-75 | Once the header parses, the reader returns the first `dataSize` bytes after the separator, or "truncated" when fewer follow. |
| Ppm.ReadsHeader | tests/ppm_utils.h:41-76 | A header the writer produces, followed by at least `dataSize` bytes, is read as an image of that width and height holding the first `dataSize` of them. |
| Ppm.ReadsNumeral | tests/ppm_utils.h:53-63 | `>>` into an unsigned reads a run of digits after white space as its decimal value. |
| Ppm.ParsesDimensions | tests/ppm_utils.h:47-64 | On a written header, the reader finds the width, the height and 255, and the data starts after the single separator byte. |
| Ppm.ReadsTruncated | tests/ppm_utils.h:66-73 | A written header followed by fewer than `dataSize` bytes is the "truncated" error, under either count. |
| Ppm.AsWrittenAcceptsShortData | tests/ppm_utils.h:66-75 | As written, a header whose byte count reaches 2^64 is accepted with only the wrapped count of data bytes, fewer than its pixels need. |
| Ppm.AsWrittenPayloadWraps | tests/ppm_utils.h:66-75 | The file "P6\n2154230017 2854344542\n255\n" followed by 26 bytes is read as written, although pixel (9, 0), inside the image, starts past the 26 bytes. With the exact count the same file is truncated. |
| Ppm.ExactReadHoldsPixels | tests/ppm_utils.h:66-86 | With the exact count, every in-range pixel of an image the reader returns lies inside its data, so `pixelAt` stays inside the buffer. |
| Ppm.RoundTrip | tests/ppm_utils.h:41-76 | Reading what the writer wrote gives back the frame's size and the first `dataSize` bytes of its packed pixels. That is all of them when the count is exact or below 2^64. |
| Ppm.RoundTripPixel | tests/ppm_utils.h:78-86 | After a write and a read, and when the count is exact or below 2^64, the image read is the frame's image, and its pixel at (x, y) is the three bytes at `y * stride + x * 3` of the original frame. |
| Ppm.PixelAt | tests/ppm_utils.h:78-86 | `pixelAt` succeeds exactly inside the image and returns three bytes. |
| PixelBuffers.AllocateRGB | include/readback_frame.h:15-20 | The stride is `w * 3` modulo 2^32, the buffer holds `stride * h` bytes, and existing bytes are kept by the resize. |
| PixelBuffers.AllocateRGBA | include/frame.h:13-18 | The stride is `w * 4` modulo 2^32, the buffer holds `stride * h` bytes, and existing bytes are kept by the resize. |
| PixelBuffers.AllocateRGBA64x32 | include/frame.h:13-18 | A 64x32 frame has stride 256 and 8192 bytes. |
| PixelBuffers.GetReadbackFormatInfo | include/offline_sdf_utils.h:14-23 | Exactly the two BGRA8 formats are accepted, both with 4 bytes per pixel and R/B swapped. RGBA8 is refused. |
| PixelBuffers.ConvertedPixelAt | src/offline_sdf_renderer.cpp:374-404 | Output pixel i is source pixel i with R and B swapped when the format says so, and alpha dropped. |
| PixelBuffers.ConvertInto | src/offline_sdf_renderer.cpp:383-401 | The per-pixel loop writes exactly the converted pixels, in order, over the whole allocated buffer. |
| PixelBuffers.DebugReadback | src/offline_sdf_renderer.cpp:374-404 | The loop fills an RGB frame of the image's size, with stride `width * 3`, holding every converted pixel in order. |
| RingSlots.ValidateRingSize | src/offline_sdf_renderer.cpp:20-25 | A ring size is accepted exactly when it is between 1 and the number of slots. |
| RingSlots.DefaultRingSizeValid | include/offline_sdf_renderer.h:18-20 | The default ring size 2 is valid whenever there are at least 2 slots. |
| RingSlots.SlotOf | src/offline_sdf_renderer.cpp:414 | The slot of a frame is always a ring index. |
| RingSlots.SlotsDistinct | src/offline_sdf_renderer.cpp:414 | Fewer than `ringSize` frames apart never share a slot. |
| RingSlots.SlotRepeats | src/offline_sdf_renderer.cpp:414 | Frames exactly `ringSize` apart share a slot. |
| RingSlots.InitialSlots | include/offline_sdf_renderer.h:28-49 | All slots start with null handles, unmapped and with no pending work. |
| RingSlots.SetupSlots | src/offline_sdf_renderer.cpp:102-144 | Only the first `ringSize` slots are set up. Each is mapped with row stride `width * bytesPerPixel`, its pending flags are untouched, and the rest are left as they were. |
| RingSlots.SetupFromFresh | src/offline_sdf_renderer.cpp:102-144 | Set up from the initial array, the ring slots are mapped with stride `width * 4` and nothing pending, and the other slots stay fresh. |
| RingPipeline.Start | src/offline_sdf_renderer.cpp:437-451 | The ring state after a successful `startEncoding` satisfies the pipeline invariant, with nothing encoded and no stop or failure. |
| RingPipeline.StartEncoding | src/offline_sdf_renderer.cpp:437-451 | `startEncoding` fails exactly when `encoder->open()` fails, with its message. Otherwise the ring satisfies the invariant, nothing is encoded yet, and the encoder is open, has made no calls and keeps the settings. |
| RingPipeline.Step | src/offline_sdf_renderer.cpp:406-547 | The loop throws only after seeing the failure flag. The stop and failure flags never clear. An item is appended only while the queue has room. A slot's pending flag is cleared only by a finished encode or by the failure handler. |
| RingPipeline.StepKeepsInv | src/offline_sdf_renderer.cpp:406-547 | Every action keeps the invariant. Without a failure, every enqueued frame is encoded or outstanding, in frame order. A slot is pending exactly when an outstanding item uses it. After a failure nothing is queued or pending. |
| RingPipeline.ReachableInv | src/offline_sdf_renderer.cpp:406-547 | Every state reachable from `startEncoding` satisfies the invariant. |
| RingPipeline.QueueBounded | src/offline_sdf_renderer.cpp:528-529 | The queue never holds more than `ringSize` items. |
| RingPipeline.EncodedInOrder | src/offline_sdf_renderer.cpp:453-490 | Frames are encoded in order 0, 1, 2, … with none skipped. |
| RingPipeline.RenderSlotFree | src/offline_sdf_renderer.cpp:414-427 | The slot being rendered into is never waiting for an encode. |
| RingPipeline.FullMeansSlotBusy | src/offline_sdf_renderer.cpp:414-415 | With `ringSize` items outstanding, the slot the loop wants next is pending. |
| RingPipeline.EnqueueNeverWaits | src/offline_sdf_renderer.cpp:522-538 | Once the loop holds its slot, `enqueueEncode` finds room and never blocks. |
| RingPipeline.CompletedRunEncodesAll | src/offline_sdf_renderer.cpp:406-435 | A run that ends normally without failure encoded frames 0 to `maxFrames - 1` and flushed once. |
| RingPipeline.NoDeadlock | src/offline_sdf_renderer.cpp:406-547 | Every non-terminal reachable state has an enabled action. |
| RingPipeline.RunFailLatch | src/offline_sdf_renderer.cpp:494-505 | After a failure no further frame is encoded or flushed. |
| RingPipeline.EarlyFailureReported | src/offline_sdf_renderer.cpp:540-547 | In every reachable state with the failure flag set, the producer not yet thrown and frames remaining, the producer has an enabled action. Every enabled producer action throws, before any further frame is rendered or enqueued. |
| RingPipeline.EarlyFailureExample | src/offline_sdf_renderer.cpp:540-547 | One concrete schedule: the first encode fails while frames remain, and the next `waitForSlotEncode` throws. |
| RingPipeline.LateFailureUnreported | src/offline_sdf_renderer.cpp:430-435 | A failure of the last encode after the loop has finished leaves `encodeFailed` set, and `renderFrames` still returns normally. |
| RingPipeline.StopEncoding | src/offline_sdf_renderer.cpp:510-520 | `stopEncoding` sets the stop flag, joins the thread exactly when it is joinable, and destroys the encoder, which writes the trailer when it is still open. |
| RingPipeline.StopEncodingIdempotent | src/offline_sdf_renderer.cpp:510-520 | A second `stopEncoding` changes nothing: it joins no thread and releases no encoder. |
| RingPipeline.StopWritesOneTrailer | src/offline_sdf_renderer.cpp:510-520 | Calling `stopEncoding` any number of times after a run joins the thread once and writes the trailer once. |
| RingPipeline.StopStateAfterRun | src/offline_sdf_renderer.cpp:406-435 | The state `stopEncoding` meets at the end of a run: the thread still joinable, nothing joined or released, and the encoder present. |
| RingPipeline.CompletedRunReleases | src/offline_sdf_renderer.cpp:406-435 | After a run that ends normally without failure, any number of `stopEncoding` calls join once, and the encoder has then sent frames 0 to `maxFrames - 1` in order, one flush and one trailer. |
| FfmpegEncoder.NewEncoder | src/ffmpeg_encoder.cpp:20-23 | A new encoder is closed, has no codec configuration, has made no calls and keeps its settings and size. |
| FfmpegEncoder.ConfigFor | src/ffmpeg_encoder.cpp:58-84 | The time base is 1/fps and the frame rate is fps/1, with a GOP of one second. The CRF is set exactly when it is non-negative and the preset exactly when it is non-empty. |
| FfmpegEncoder.DefaultConfig | include/ffmpeg_encode_settings.h:7-13 | Default settings give 1/30, 30 fps, GOP 30, CRF 20 and preset "slow". |
| FfmpegEncoder.Open | src/ffmpeg_encoder.cpp:27-152 | Opening an open encoder changes nothing. An empty output path is an error. Otherwise it opens exactly when no set-up step fails, with the configuration from the settings. |
| FfmpegEncoder.OpenIdempotent | src/ffmpeg_encoder.cpp:28-30 | Opening twice equals opening once. |
| FfmpegEncoder.DefaultSettingsCannotOpen | src/ffmpeg_encoder.cpp:32-34 | Default settings have no output path, so `open` fails and `encodeFrame` then reports "not opened". |
| FfmpegEncoder.EncodeFrame | src/ffmpeg_encoder.cpp:153-199 | A closed encoder refuses with "not opened". An open one sends the frame with its index as pts and a duration of 1 unless a step fails before the send. A failure while receiving packets after the send still leaves the frame sent, and it fails exactly when some step fails, with that step's message. |
| FfmpegEncoder.Flush | src/ffmpeg_encoder.cpp:201-229 | Flushing a closed encoder does nothing and succeeds. An open one sends the end-of-stream marker unless the send itself fails, and it fails exactly when some step fails, with that step's message. |
| FfmpegEncoder.FailedEncodeKeepsFrame | src/ffmpeg_encoder.cpp:174-196 | A frame whose packet drain fails after the send is still in the encoder's stream, and the next encode follows it. |
| FfmpegEncoder.Close | src/ffmpeg_encoder.cpp:234-266 | Closing writes the trailer once and drops the codec configuration. Closing a closed encoder changes nothing. |
| FfmpegEncoder.CloseIdempotent | src/ffmpeg_encoder.cpp:235-237 | Closing twice equals closing once. |
| FfmpegEncoder.EncodeAllSends | src/ffmpeg_encoder.cpp:154-199 | Encoding a sequence of frames on an open encoder sends exactly those frames, in order. |
| FfmpegEncoder.SessionCalls | src/ffmpeg_encoder.cpp:27-266 | Open, encode, flush and close make exactly the frame sends, then the flush, then the trailer. |
| VkSelect.FindGpu | include/vkutils.h:137-179 | No devices is an error. Otherwise the first discrete GPU is chosen, or device 0 when there is none. |
| VkSelect.GraphicsQueueIndex | include/vkutils.h:198-242 | The first queue family with graphics and present support is chosen, with distinct errors for no families and no suitable family. |
| VkSelect.SelectSwapchainFormat | include/vkutils.h:306-343 | No formats is an error. A lone UNDEFINED entry gives R8G8B8A8_SRGB in its colour space. |
| VkSelect.SwapchainFormatChoice | include/vkutils.h:324-342 | Otherwise the first R8G8B8 SRGB/UNORM entry is chosen if any exists, else the first entry. |
| VkSelect.DesiredImageCount | include/vkutils.h:372-377 | One more than the minimum, capped by a non-zero maximum, wrapping as `uint32_t`. |
| VkSelect.ImageCountOneMore | include/vkutils.h:372-377 | With room below the maximum, the count is exactly the minimum plus one. |
| VkSelect.PresentModePriority | include/vkutils.h:389-404 | Over all 30 array entries, mailbox beats immediate, which beats FIFO. |
| VkSelect.CompositeAlphaPriority | include/vkutils.h:406-419 | The first supported of opaque, inherit, pre-multiplied and post-multiplied is chosen, else opaque. |
| VkSelect.SwapchainSize | include/vkutils.h:345-361 | The surface extent is used unless its width is 0xFFFFFFFF, and then the framebuffer size is used. |
| VkSelect.CheckSwapchainImageCount | include/vkutils.h:467-472 | More images than `MAX_SWAPCHAIN_IMAGES` is an error quoting both numbers. |
| SdfRenderer.FindMemoryType | src/sdf_renderer.cpp:163-176 | The first memory type allowed by the type bits whose flags include every required flag is chosen, and an error results only when none is. |
| SdfRenderer.ExtraFlagsAllowed | src/sdf_renderer.cpp:163-176 | A type with every flag set is suitable, so a search succeeds at or before it. |
| SdfRenderer.ReadbackBufferSize | src/sdf_renderer.cpp:141-142 | The size is `width * height * 4` as a 64-bit number. |
| SdfRenderer.Advance | src/sdf_renderer.cpp:403-404 | The next frame index is the fence index plus one, modulo the image count, and the frame count goes up by one. The number of fences changes only when they are recreated on a resize. |
| SdfRenderer.FenceIndexInRange | src/sdf_renderer.cpp:360-375 | Through resizes that change the image count, every fence index waited on is below the image count of the swapchain in use. This is not a bound by the number of fences; that bound is stated by the next three rows. |
| SdfRenderer.ResizeOutgrowsFences | src/sdf_renderer.cpp:87-93 | As written, the fences and semaphores are made only for the first swapchain. A resize from 2 to 3 images leads to a wait on `fences[2]` while only two fences exist. Recreating them on resize gives three fences for the same wait. |
| SdfRenderer.FenceIndexWithinSyncArrays | src/sdf_renderer.cpp:87-93 | When the fences and semaphores are recreated for every new swapchain, every fence wait uses a fence that exists, through any resizes. |
| SdfRenderer.FencesSufficeWhileCountKept | src/sdf_renderer.cpp:87-93 | As written, every fence wait uses a fence that exists as long as no swapchain has more images than the first. The fence count never changes. |
| SdfRenderer.RendersExactlyMax | src/sdf_renderer.cpp:353-356 | With a frame limit and an open window, exactly the remaining frames are rendered. |
| SdfRenderer.FrameIndexFollowsCount | src/sdf_renderer.cpp:403-404 | Without resizes, the frame index is the frame count modulo the image count. |
| SdfRenderer.FragSpirvPath | src/sdf_renderer.cpp:100-117 | When compilation fails the precompiled path is the shader path with its extension replaced by ".spv". |
| ShaderUtils.GetShaderLangAsWritten | src/shader_utils.cpp:65-93 | As written, tessellation control is selected exactly when index 1 is 't' and index 3 is 'c', which no real extension has. Short extensions are invalid, and unknown ones are unsupported. |
| ShaderUtils.AsWrittenRejectsTessellation | src/shader_utils.cpp:72-81 | As written, ".tesc" and ".tese" are both unsupported. |
| ShaderUtils.GetShaderLang | src/shader_utils.cpp:65-93 | Corrected table: short extensions are invalid, unknown ones unsupported, and outside the tessellation branch it agrees with the code as written. |
| ShaderUtils.StageExtensionRoundTrip | src/shader_utils.cpp:65-93 | Every stage's extension maps back to that stage. |
| ShaderUtils.StageFromKeyCharacters | src/shader_utils.cpp:65-93 | The stage depends only on the characters at index 1 and 4. |
| ShaderUtils.ReadShaderSource | src/shader_utils.cpp:97-110 | The read succeeds exactly when the file opens, and gives its whole contents. |
| ShaderUtils.ToySourceSplits | src/shader_utils.cpp:115-136 | The toy source is the template without its trailing NUL followed by the file's contents. |
| ShaderUtils.CompileInput | src/shader_utils.cpp:202-220 | As written, the stage comes from the file's extension through the as-written table, and an extension error is reported before the file is read. With the toy template the source is the template without its NUL followed by the file. |
| ShaderUtils.AsWrittenStage | src/shader_utils.cpp:65-93 | The as-written table refuses the tessellation extensions and maps every other stage's extension to that stage. |
| ShaderUtils.CompileStageFromExtension | src/shader_utils.cpp:202-220 | For every stage and file name: a tessellation file is "Unsupported shader extension". Any other stage's file fails to open with the file name or compiles as that stage. |
| FileUtils.LoadBinaryFile | include/fileutils.h:13-38 | The errors are for a file that does not open, a size not a multiple of 4, and a short read. Success gives size/4 words. |
| FileUtils.LoadKeepsFile | include/fileutils.h:26-31 | The words loaded hold exactly the file's bytes. |
| FileUtils.WordsKeepBytes | include/fileutils.h:26-31 | Reading bytes as little-endian words and back is the identity. |
| Paths.ReplaceExtensionSets | src/sdf_renderer.cpp:103-111 | Replacing the extension gives the new extension and keeps the stem. |
| Paths.SplitRejoins | src/filewatcher/windows_filewatcher.cpp:151-153 | Parent path and file name rejoin to the path. |
| Paths.ExtensionOfAppended | src/main.cpp:84-87 | Appending ".frag" to a name with a file name gives the extension ".frag". |
| Text.ToLowerIdempotent | include/glfwutils.h:31-34 | Lower-casing twice equals lower-casing once. |
| MachineInts.WrapU32 | include/frame.h:16 | A `uint32_t` result is the value modulo 2^32, and unchanged when it fits. |

## Left out

- Vulkan object creation, command recording, submission and presentation are left out. They are calls into drivers. Their results are parameters: device types, queue families, surface formats, memory flags and the swapchain image count.
- Threads are left out. `RingPipeline` models each locked section of `renderFrames` and its encoder thread as one atomic action. Timing and memory ordering are not modelled.
- LinuxWatcher.WatchFile: the model returns the read failure as an error value. In the source, `watchFile` runs as the body of a `std::thread`, so that throw escapes the thread function and ends the process through `std::terminate`. No caller ever sees the error.
- FFmpeg internals are left out. `FfmpegEncoder` records the calls made (send frame, flush, trailer), and any set-up failure is a parameter. Colour conversion through swscale is not modelled.
- glslang compilation is left out. `ShaderUtils.CompileInput` stops at the stage and the source text.
- Reading files, the environment, the clock and the random toy-name number are left out. They become parameters: file contents or None, a `fileExists` function, per-event clock readings, a number in 10000-99999.
- `VSDF_ENABLE_FFMPEG` is assumed on.
- `MAX_FRAME_SLOTS` is a parameter, because it is defined in a header that is not part of this model.
- The Linux watcher's `startWatching` and `stopWatching` are not modelled. The inotify set-up is OS calls.
- LinuxWatcher.WalkAsWritten: a header or a name that runs past the end of the array is cut at the end. The source reads past `buffer` there. The kernel writes whole records, so only a name without a NUL in the rest of the array reaches that case.
- LinuxWatcher.WatchFile: a fresh `buffer` in each iteration of the outer loop is modelled as the same bytes, so an earlier read's bytes stay behind a shorter read. The source's array is uninitialised on each iteration, and on common compilers it occupies the same stack bytes.
- The Windows walk assumes a well-formed chain inside the 4096-byte buffer. The UTF-16 to UTF-8 conversion is the identity on names.
- `MacWatcher` is not modelled past the flag test. Resolving the watched path to its canonical form and the FSEvents stream set-up (`src/filewatcher/mac_filewatcher.cpp:51-79`) are OS calls.
- Windows '\\' separators are not modelled. `Paths` treats '/' as the only separator.
- Cli: the "Failed to create file" error for a new toy file is not modelled, because writing the file is I/O. The choice between printing help for a usage error and for a runtime error is not modelled either.
- Ppm: failing to open the PPM file is not modelled. Writing takes `canOpen` instead, and reading starts from the file's bytes.
- Cli.Stoul: models `unsigned long` as 64 bits, as on LP64 platforms (Linux, macOS). Where `unsigned long` is 32 bits (MSVC on Windows), `std::stoul` throws out_of_range for values of 2^32 and above. The loop then reports "value is out of range for a positive integer", which is what the `RangeChecked` conversion gives. So the truncation finding for count flags holds on LP64 platforms only.
- Paths.ParentPath: only the last '/' is dropped. A doubled separator before the file name keeps the others: "a//b" has parent "a/" here, whereas `std::filesystem::path::parent_path` gives "a". Redundant separators are not normalised.
- PixelBuffers.DebugReadback: requires `width * 3 < 2^32`. The `uint32_t` stride computed by `allocateRGB` would wrap for wider images, and that wrap is not modelled.
- Ppm.ReadPayload: the `std::vector` of `dataSize` bytes is allocated before the read, so a large header can fail with `std::bad_alloc` instead of the truncated error. Memory limits are not modelled.
- Ppm.ReadUnsigned: the contract states only that the read position advances within the input. Its value on a run of digits is stated by `Ppm.ReadsNumeral`.
- RingPipeline: a throw from `enqueueEncode` leaves `renderFrames` without calling `stopEncoding`. The model stops at `Threw` and does not model the destructor.
- SdfRenderer.GameLoop: the contract bounds only the number of fences waited on. Its counters are stated by `SdfRenderer.FenceIndexInRange`, `SdfRenderer.FenceIndexWithinSyncArrays`, `SdfRenderer.RendersExactlyMax` and `SdfRenderer.FrameIndexFollowsCount`.
- SdfRenderer.GameLoop: the semaphores indexed by the acquired image index are not modelled. The driver chooses that index.

## Findings

| source | as written | input that shows it | evidently intended | confidence | as-written member | corrected member |
|---|---|---|---|---|---|---|
| src/image_dump.cpp:16-22 | the guard checks only that width, height and stride are non-zero and `stride * height` fits in the buffer, then copies `width * 3` bytes per row | width 2, height 1, stride 1, one byte of data: accepted, and the row copy reads 6 bytes | refuse a stride shorter than `width * 3` | not executed | Ppm.AsWrittenCheckAdmitsOverRead | Ppm.AcceptedRowsInBuffer |
| src/shader_utils.cpp:72-81 | the tessellation branch switches on `extension[3]`, which is 's' in both ".tesc" and ".tese" | ".tesc" gives "Unsupported shader extension" | test index 4, the character that tells ".tesc" from ".tese" | not executed | ShaderUtils.AsWrittenRejectsTessellation | ShaderUtils.StageExtensionRoundTrip |
| src/main.cpp:227-245 | `static_cast<uint32_t>(std::stoul(...))` truncates values of 2^32 and above, and the zero check runs after the truncation | `--ffmpeg-width 4294967297` sets width 1, and `--frames 4294967296` sets 0 frames | refuse values that do not fit in 32 bits | not executed | Cli.AsWrittenCountWraps | Cli.CountValue |
| tests/ppm_utils.h:66-67 | `dataSize` is `width * height * 3` in 64-bit `size_t`, which wraps for large headers, and the read and the truncation check use the wrapped count | "P6\n2154230017 2854344542\n255\n" followed by 26 bytes: the count wraps to 26, the image is returned, and `pixelAt(img, 9, 0)` reads past its data | compute the count without wrapping, or refuse a header whose count does not fit | not executed | Ppm.AsWrittenPayloadWraps | Ppm.ExactReadHoldsPixels |
| src/sdf_renderer.cpp:87-93 | the fences and semaphores are made only while none exist, with the first swapchain's image count, and a resize never remakes them, while the frame index wraps at the new image count | a resize from 2 to 3 swapchain images, then two frames: the third wait uses `fences[2]`, which was never made | make the fences and semaphores again whenever the image count changes | not executed | SdfRenderer.ResizeOutgrowsFences | SdfRenderer.FenceIndexWithinSyncArrays |
| src/filewatcher/linux_filewatcher.cpp:43 | `filename == event->name` reads the name as a C string from the end of the header, even when `len` is 0 | a read that reported a change to the watched file, then the IN_IGNORED record of `stopWatching` (`len` 0) in the same array: the stale name after its header matches, and the callback runs once more | a record without a name matches no file | not executed | LinuxWatcher.StaleNameAtStop | LinuxWatcher.WalkRoundTrip |
