# Row-partitioned image filters, modelled in Dafny

The repository filters an image held as a flat `unsigned char` buffer. The buffer has `width * height * channels` bytes, row-major and channel-interleaved. There are four filters:

- grayscale;
- a 3x3 Gaussian blur;
- a Sobel edge detector;
- a brightness increase of 50.

There are two programs:

- **The MPI program** (`MPI/image_proc_mpi.c`):
  - splits the rows among `size` ranks (`height / size` rows each, plus one more row for each of the first `height % size` ranks);
  - scatters the blocks with `MPI_Scatterv`;
  - for blur and edge, exchanges one halo row with each neighbour rank;
  - runs an in-place kernel on every block;
  - gathers the blocks back with `MPI_Gatherv`.
- **The serial program** (`OMP/image_proc_omp.c`) runs the same filters from an input image into a separate, zero-initialised output image.

The model contains both programs, and the proofs tie them together:

- **`Layout`**: the index `(i * width + j) * channels + ch` and its inverse.
- **`Stencil`**: the per-pixel arithmetic:
  - the 3x3 window;
  - the integer form of the blur kernel;
  - the clamped integer Sobel magnitude;
  - the brightness clamp;
  - the luminance, kept as a parameter.
- **`Sweep`**: the state of a buffer part-way through a kernel's row, column and channel loops. Every kernel's loop invariant is an instance of it. It also defines the row step, one iteration of a row loop applied to any prior buffer, and proves that row steps over disjoint rows give the same buffer in any order.
- **`Reference`**: the serial filters as methods on `input` and `output` arrays. Each is proved to leave in `output` exactly a specification image (`Grayscale`, `Blur`, `Edge`, `Brightness`). Lemmas give that image pixel by pixel.
- **`MpiFilters`**: the four MPI kernels as in-place methods on the rank's block. Each reads a copy `temp` of the block and the two halo rows. Each is proved to produce `BlurLocal`, `EdgeLocal`, etc.
- **`Partition`**: the row partition, and the loop that fills `sendcounts` and `displs`.
- **`Collective`**: `MPI_Scatterv` as slicing and `MPI_Gatherv` as concatenation, with both round trips.
- **`Halo`**: the halo exchange, modelled as the sets of posted sends and receives. Every receive and every send is matched exactly once, and each halo ends up holding the neighbour's boundary row.
- **`Fidelity`**: a kernel run on a block, given the right halo rows, produces exactly that block's rows of the serial filter's image.
- **`Pipeline`**: both programs end to end, including the filter-name dispatch. The ranks are simulated one after another. The main theorem is that the MPI program's gathered image equals the serial result:
  - for brightness, with any number of ranks;
  - for grayscale, with any number of ranks, when the image has at most four channels;
  - for blur, with any number of ranks up to the number of rows;
  - for edge, with any number of ranks up to the number of rows, off the image border.

## Model

| member | source | states |
|---|---|---|
| Layout.OffsetCoords | MPI/image_proc_mpi.c:268-270 | The index of channel `ch` of pixel `(i, j)` lies inside a `h * w * c` buffer, and row, column and channel can be recovered from it. |
| Layout.CoordsOffset | OMP/image_proc_omp.c:123-125 | Every byte of the buffer is channel `ChanOf` of pixel `(RowOf, ColOf)`, and those coordinates are in range. |
| Layout.NeighbourOffset | OMP/image_proc_omp.c:165 | The neighbour `(i + di, j + dj)` lies `di` rows and `dj` pixels away in the flat buffer. |
| Stencil.BlurValue | OMP/image_proc_omp.c:148-171 | The blurred byte is the floor of the integer-weighted 3x3 sum divided by 16. This is what the float sum with weights k/16 and the truncating cast give. |
| Stencil.BlurWithinRange | OMP/image_proc_omp.c:148-152 | The blur is a weighted mean: the result lies within the range of the window's bytes, and a uniform window blurs to itself. |
| Stencil.Isqrt | OMP/image_proc_omp.c:224 | The integer square root `r` satisfies `r*r <= n < (r+1)*(r+1)`. |
| Stencil.EdgeValue | OMP/image_proc_omp.c:210-228 | The edge strength is the integer root of `gx^2 + gy^2`, clamped to 255: its square is at most `gx^2 + gy^2`, and below 255 it is the largest such integer. |
| Stencil.Brighten | MPI/image_proc_mpi.c:415-418 | The clamp gives `b + delta` when that is a byte. Otherwise it gives the byte nearest to `b + delta`, so no byte is closer. |
| Stencil.FlatHasNoEdge | OMP/image_proc_omp.c:202-203 | A uniform window has edge strength 0. |
| Reference.GrayscalePixel | OMP/image_proc_omp.c:123-138 | Channels 0 to 2 of every pixel hold the luminance of the input's R, G and B (a missing G or B reads as R). Channel 3 is the input's alpha. Channels beyond it keep the output's prior contents. |
| Reference.BlurPixel | OMP/image_proc_omp.c:156-193 | Bytes in rows 0 and h-1 and in columns 0 and w-1 equal the input's. Every other byte is the blur of its 3x3 window of input bytes, and that window lies inside the input. |
| Reference.NeighboursInside | OMP/image_proc_omp.c:163-167 | All nine reads of an interior pixel's window are inside the buffer. |
| Reference.EdgePixel | OMP/image_proc_omp.c:207-234 | Every channel of an interior pixel holds the edge strength of channel 0 of its window. Border pixels keep what the output held. |
| Reference.BrightnessBy50 | OMP/image_proc_omp.c:244-256 | With the +50 that `main` passes, every byte `b` becomes `min(255, b + 50)`. |
| Reference.GrayscaleFilter | OMP/image_proc_omp.c:115-140 | `grayscale_filter` leaves exactly `Grayscale(input, old output)` in the output. The input array is a different array and is never written. |
| Reference.GrayscaleRow | OMP/image_proc_omp.c:123-139 | One iteration of the row loop, from any prior output, writes channels 0 to 3 of row `i` with their grayscale bytes and changes no other byte. |
| Reference.GrayscaleRowTarget | OMP/image_proc_omp.c:122-139 | After any sequence of earlier row iterations, a row iteration writes the same bytes as a step of `Grayscale(input, initial output)`, because no iteration touches the channels past alpha. |
| Reference.GrayscaleRowsAnyOrder | OMP/image_proc_omp.c:122-139 | The row iterations, run in any order (each row at least once), leave exactly `Grayscale(input, initial output)`: the OpenMP schedule gives the sequential loop's result. |
| Reference.GrayscalePixelWrite | OMP/image_proc_omp.c:124-138 | One pixel's writes advance the row's sweep by exactly that pixel. |
| Reference.GrayscaleChannel | OMP/image_proc_omp.c:132-137 | Channel `ch < 4` of the grayscale image is the gray value for a colour channel and the input byte for alpha. |
| Reference.GrayscaleKeepsExtraChannels | OMP/image_proc_omp.c:134-137 | Stopping after channel 3 leaves the pixel in the same state as visiting all its channels. |
| Reference.GaussianBlurFilter | OMP/image_proc_omp.c:142-194 | `gaussian_blur_filter` leaves exactly `Blur(input)` in the output, whatever the output held before. |
| Reference.BlurInterior | OMP/image_proc_omp.c:156-174 | The first loop nest blurs every interior byte and leaves the border bytes of the output untouched. |
| Reference.BlurRow | OMP/image_proc_omp.c:157-173 | One iteration of the row loop, from any prior output: the interior bytes of row `i` become the blur of the input, and every other byte keeps its value. |
| Reference.BlurRowsAnyOrder | OMP/image_proc_omp.c:156-173 | The row iterations of the interior pass, run in any order (each row at least once), leave exactly `InteriorBlurred`: the OpenMP schedule gives the sequential loop's result. |
| Reference.BlurBorders | OMP/image_proc_omp.c:176-193 | After the interior pass, the border copy completes the output to `Blur(input)`. |
| Reference.BlurInnerRow | OMP/image_proc_omp.c:185-192 | In an inner row, only the two end pixels still differ from the blur. |
| Reference.CopyRow | OMP/image_proc_omp.c:178-184 | Copying the first or the last row completes that row of the blur. |
| Reference.CopyRowEnds | OMP/image_proc_omp.c:185-191 | Copying both end pixels of an inner row completes that row of the blur. |
| Reference.SobelEdgeFilter | OMP/image_proc_omp.c:196-235 | `sobel_edge_filter` leaves exactly `Edge(input, old output)`: the border keeps the output's prior contents. |
| Reference.SobelRow | OMP/image_proc_omp.c:208-233 | One row iteration, from any prior output: every channel of row `i`'s interior pixels gets the edge strength of channel 0, and every other byte keeps its value. |
| Reference.EdgeRowsAnyOrder | OMP/image_proc_omp.c:207-234 | The row iterations of `sobel_edge_filter`, run in any order, leave exactly `Edge(input, output)`. |
| Reference.BrightnessFilter | OMP/image_proc_omp.c:237-257 | `brightness_filter` leaves exactly `Brightness(input, delta)` in the output. |
| Reference.BrightnessRow | OMP/image_proc_omp.c:245-255 | One row iteration, from any prior output: row `i` becomes the clamped `input + delta`, and every other byte keeps its value. |
| Reference.BrightnessRowsAnyOrder | OMP/image_proc_omp.c:244-256 | The row iterations of `brightness_filter`, run in any order, leave exactly `Brightness(input, delta)`. |
| Sweep.RowsWrittenAt | OMP/image_proc_omp.c:156-157 | After a sequence of row steps, a byte holds the target's value exactly when its row is among the steps' rows and its column is one they write. Otherwise it holds the prior value. Order and repetition do not matter. |
| Sweep.RowOrderIrrelevant | OMP/image_proc_omp.c:156-157 | Two sequences of row steps over the same set of rows leave the same buffer. |
| Sweep.SetPixel | OMP/image_proc_omp.c:230-232 | The channel loop stores one value into every channel of a pixel and advances the sweep by that pixel. |
| MpiFilters.LocalWindowInside | MPI/image_proc_mpi.c:319-329 | Every neighbourhood read of a recomputed pixel falls inside the halo row it reads (`w * c` bytes) or inside the block. |
| MpiFilters.OuterHalosUnread | MPI/image_proc_mpi.c:303-306 | Rank 0 never reads its top halo and the last rank never reads its bottom halo. |
| MpiFilters.GrayscaleMpi | MPI/image_proc_mpi.c:266-283 | `grayscale_filter_mpi` turns the block into `Grayscale(block, block)`: R, G and B become the gray value, and alpha and any later channel are unchanged. |
| MpiFilters.GrayscalePixelMpi | MPI/image_proc_mpi.c:270-280 | The pixel's R, G and B are read before any of them is overwritten, so the in-place pixel step writes the gray value of the original pixel. |
| MpiFilters.GrayscaleInPlaceKeepsAlpha | MPI/image_proc_mpi.c:278-280 | Writing only channels 0 to 2 leaves the later channels as the block held them. |
| MpiFilters.BlurLocalPixel | MPI/image_proc_mpi.c:299-336 | A recomputed byte is the blur of its window, read from `temp` and the halos. Every other byte keeps its value: row 0 on rank 0, the last row on the last rank, and columns 0 and w-1. |
| MpiFilters.GaussianBlurMpi | MPI/image_proc_mpi.c:285-342 | `gaussian_blur_filter_mpi` turns the block into `BlurLocal` of its own prior contents. Every window is read from the unfiltered copy. |
| MpiFilters.BlurRowMpi | MPI/image_proc_mpi.c:308-338 | One row that is not skipped is blurred, and nothing else changes. |
| MpiFilters.EdgeLocalPixel | MPI/image_proc_mpi.c:356-404 | Every channel of a recomputed pixel gets the edge strength of channel 0 of its window. Every other byte keeps its value. |
| MpiFilters.SobelEdgeMpi | MPI/image_proc_mpi.c:344-408 | `sobel_edge_filter_mpi` turns the block into `EdgeLocal` of its prior contents. |
| MpiFilters.SobelRowMpi | MPI/image_proc_mpi.c:365-404 | One row that is not skipped gets its edge values, and nothing else changes. |
| MpiFilters.BrightnessMpi | MPI/image_proc_mpi.c:410-420 | `brightness_filter_mpi` clamps every byte of the block to `[0, 255]` after adding `brightness`. |
| Partition.ShareIsQuotient | MPI/image_proc_mpi.c:86-87 | The even share and the leftover rows are `height / size` and `height % size`. |
| Partition.Balanced | MPI/image_proc_mpi.c:86-93 | Every rank gets `h / size` or `h / size + 1` rows. It gets the extra row exactly when its rank is below `h % size`, and lower ranks never get fewer rows. |
| Partition.LocalHeight | MPI/image_proc_mpi.c:86-93 | Rank `r` owns `h / size` rows, plus one more when `r < h % size`. |
| Partition.RowStart | MPI/image_proc_mpi.c:103-111 | Rank `r`'s first row, the rows of all lower ranks summed, is `r * (h / size) + min(r, h % size)`. |
| Partition.RowStartTotal | MPI/image_proc_mpi.c:103-111 | The ranks' row counts add up to `h`. |
| Partition.RowsInside | MPI/image_proc_mpi.c:103-111 | Each rank's rows end where the next rank's rows begin, and never past the last row. |
| Partition.RowStartMonotone | MPI/image_proc_mpi.c:103-111 | Higher ranks start at later rows. |
| Partition.NoEmptyRank | MPI/image_proc_mpi.c:86-93 | With no more ranks than rows, every rank owns at least one row. |
| Partition.StartsInside | MPI/image_proc_mpi.c:86-93 | With no more ranks than rows, every rank's first row is a row of the image. |
| Partition.FirstRank | MPI/image_proc_mpi.c:304 | With no more ranks than rows, a rank owns row 0 exactly when it is rank 0. |
| Partition.LastRank | MPI/image_proc_mpi.c:304 | With no more ranks than rows, a rank's rows reach the last image row exactly when it is rank `size - 1`. |
| Partition.Owner | MPI/image_proc_mpi.c:86-111 | Every row of the image is owned by exactly one rank. |
| Partition.DisplsChain | MPI/image_proc_mpi.c:103-111 | `displs[0] == 0`, `displs[i+1] == displs[i] + sendcounts[i]`, and the last piece ends at `w * h * c`. |
| Partition.ComputeDisplacements | MPI/image_proc_mpi.c:99-112 | The loop fills `sendcounts` and `displs` with each rank's byte count and running offset. Each count equals that rank's own `local_size` (`local_height * width * channels`). |
| Collective.ScattervPlacement | MPI/image_proc_mpi.c:122-132 | Rank `r`'s piece has `counts[r]` bytes. Its byte `x` is the buffer byte that follows all lower ranks' pieces by `x`. |
| Collective.Gatherv | MPI/image_proc_mpi.c:230-240 | The root's gathered buffer is as long as all the pieces together. |
| Collective.GathervPlacement | MPI/image_proc_mpi.c:230-240 | Byte `x` of piece `r` lands at the sum of the earlier pieces' lengths plus `x`. |
| Collective.GatherScatterPrefix | MPI/image_proc_mpi.c:122-132 | Gathering the first `m` scattered pieces gives the buffer's prefix up to the `m`-th displacement. |
| Collective.GatherScatter | MPI/image_proc_mpi.c:122-132 | Gathering what was scattered rebuilds the buffer byte for byte. |
| Collective.ScatterGather | MPI/image_proc_mpi.c:230-240 | Scattering what was gathered gives every rank back its own piece. |
| Collective.PartitionTiles | MPI/image_proc_mpi.c:103-111 | The program's counts and displacements tile the `w * h * c` bytes without gap or overlap, for every number of ranks. |
| Collective.CountsPrefix | MPI/image_proc_mpi.c:103-111 | The counts before rank `r` add up to rank `r`'s first row times the row length. |
| Halo.SendsOf | MPI/image_proc_mpi.c:152-163 | A rank sends `row_size` bytes to each neighbour it has and to no other rank. It sends its first row to the rank above with tag 0 whenever `rank > 0`, and its last row to the rank below with tag 1 whenever `rank < size - 1`. |
| Halo.ReceivesOf | MPI/image_proc_mpi.c:152-166 | A rank posts a receive into `halo_top` from the rank above with tag 1 exactly when `rank > 0`, and into `halo_bottom` from the rank below with tag 0 exactly when `rank < size - 1`. It posts no other receive. |
| Halo.SentBy | MPI/image_proc_mpi.c:152-163 | Any posted send carries its sender's first row to the rank above (tag 0) or its last row to the rank below (tag 1). |
| Halo.HaloTop | MPI/image_proc_mpi.c:144-157 | `halo_top` is `row_size` bytes. On rank 0 it stays zero (`calloc`). Elsewhere it is the last `row_size` bytes of the rank above's buffer, whenever that buffer holds a row. |
| Halo.HaloBottom | MPI/image_proc_mpi.c:145-166 | `halo_bottom` is `row_size` bytes. On the last rank it stays zero. Elsewhere it is the first `row_size` bytes of the rank below's buffer, whenever that buffer holds a row. |
| Halo.ReceiveMatchedOnce | MPI/image_proc_mpi.c:148-168 | Every posted `MPI_Irecv` is matched by exactly one posted `MPI_Isend` (same source, destination and tag). That send's payload is the neighbour's boundary row, which ends up in the halo. |
| Halo.SendMatchedOnce | MPI/image_proc_mpi.c:148-168 | Every posted `MPI_Isend` is matched by exactly one posted `MPI_Irecv`, so every `MPI_Waitall` completes. |
| Fidelity.BlockRow | MPI/image_proc_mpi.c:153-163 | Row `i` of a block holding image rows `s ..` is image row `s + i`. |
| Fidelity.LocalReadIsGlobal | MPI/image_proc_mpi.c:319-329 | For a recomputed pixel, each read from `temp`, `halo_top` or `halo_bottom` returns the image byte at the same position. |
| Fidelity.LocalWindowIsGlobal | MPI/image_proc_mpi.c:312-333 | The window a recomputed pixel reads is the image's window around the same pixel. |
| Fidelity.ShiftedCoords | MPI/image_proc_mpi.c:122-132 | Byte `k` of a block starting at row `s` is image byte `s * w * c + k`, at the same column and channel. |
| Fidelity.BlockCoords | MPI/image_proc_mpi.c:299-306 | Within an aligned block, a pixel is recomputed exactly when it is off the image's border. |
| Fidelity.BlurByteAgrees | MPI/image_proc_mpi.c:299-336 | Each byte of the blurred block equals the serial blur's byte at the same image position. |
| Fidelity.BlurBlockAgrees | MPI/image_proc_mpi.c:285-342 | The blurred block is exactly its rows of the serial blur. |
| Fidelity.EdgeByteAgrees | MPI/image_proc_mpi.c:356-404 | Each byte of the edge block equals the byte at the same position of the edge image whose border is the input. |
| Fidelity.EdgeBlockAgrees | MPI/image_proc_mpi.c:344-408 | The edge block is exactly its rows of the edge image whose border is the input. |
| Fidelity.GrayscaleByteAgrees | MPI/image_proc_mpi.c:270-280 | No pixel's channels straddle two rows, so a grayscale byte of the block equals the whole image's. |
| Fidelity.GrayscaleBlockAgrees | MPI/image_proc_mpi.c:266-283 | The grayscale block is exactly its rows of the grayscale image. |
| Fidelity.BrightnessBlockAgrees | MPI/image_proc_mpi.c:410-420 | The brightened block is exactly its rows of the brightened image. |
| Pipeline.ParseFilter | MPI/image_proc_mpi.c:135-219 | The `strcmp` chain selects a filter exactly when the name is that filter's name. |
| Pipeline.PieceRows | MPI/image_proc_mpi.c:122-132 | The piece at displacement `s * rs` holding `lh * rs` bytes is rows `s .. s + lh` of the buffer. |
| Pipeline.PieceInBlock | MPI/image_proc_mpi.c:122-132 | Such a piece is the image's block of rows `s .. s + lh`. |
| Pipeline.RankInBlock | MPI/image_proc_mpi.c:114-132 | The block rank `r` receives is image rows `RowStart(r) .. RowStart(r) + local_height`. |
| Pipeline.PreviousBlockHalo | MPI/image_proc_mpi.c:161-163 | The row a rank sends down is the last row of its block. |
| Pipeline.NextBlockHalo | MPI/image_proc_mpi.c:153-154 | The row a rank sends up is the first row of its block. |
| Pipeline.HaloTopIsRow | MPI/image_proc_mpi.c:152-157 | Once the exchange completes, rank `r > 0`'s `halo_top` is the image row just above its block. |
| Pipeline.HaloBottomIsRow | MPI/image_proc_mpi.c:160-166 | Once the exchange completes, rank `r < size - 1`'s `halo_bottom` is the image row just below its block. |
| Pipeline.TopAligned | MPI/image_proc_mpi.c:152-157 | Whenever a block does not start at row 0, its top halo is the image row above it. |
| Pipeline.BottomAligned | MPI/image_proc_mpi.c:160-166 | Whenever a block does not end at the last row, its bottom halo is the image row below it. |
| Pipeline.RankAligned | MPI/image_proc_mpi.c:138-172 | With no more ranks than rows:<br>- each block is a non-empty run of image rows ending where the next rank's rows begin;<br>- rank 0 and rank `size - 1` are exactly the ranks at the image's top and bottom;<br>- each halo is the image row just outside the block. |
| Pipeline.RankAgrees | MPI/image_proc_mpi.c:134-227 | What every rank holds after its kernel is its rows of the image the MPI program promises. |
| Pipeline.RunMpi | MPI/image_proc_mpi.c:85-240 | The MPI program returns status 1 with no filtering for an unknown filter name. Otherwise it returns status 0 and gathers the filtered image `MpiResult`. |
| Pipeline.RunRank | MPI/image_proc_mpi.c:135-217 | One rank runs the selected in-place kernel on a copy of its block. |
| Pipeline.RunSerial | OMP/image_proc_omp.c:68-92 | The serial program returns status 1 for an unknown filter name. Otherwise it returns status 0 and the filter's image in a zeroed output. |
| Pipeline.MpiAgreesWithSerial | MPI/image_proc_mpi.c:135-240 | The MPI image equals the serial image for blur, for brightness, and for grayscale when there are at most four channels. The edge images agree off the border, where the MPI program keeps the input and the serial program leaves zeros. |

## Left out

- The MPI runtime is not modelled. This covers `MPI_Init`, `MPI_Finalize`, `MPI_Barrier`, `MPI_Abort`, the `MPI_Bcast` of the dimensions (which the model passes to every rank directly), and `MPI_Wtime` timing.
- Concurrency is not modelled: the ranks are simulated one after another. This is sound because a rank only ever touches its own block, and every halo is read from the blocks before any kernel runs, as the `MPI_Waitall` before the kernel call guarantees.
- Collectives and the exchange are pure functions:
  - `MPI_Scatterv` and `MPI_Gatherv` are slicing and concatenation;
  - the halo exchange is the set of posted sends and receives, plus the halos that matching them yields.
  
  Message ordering and buffering are not modelled.
- OpenMP's `num_threads`, the pragmas and the `thread_count` check are not modelled. Each parallel loop is the sequential loop it splits. Its row iterations are each proved from any prior output (`GrayscaleRow`, `BlurRow`, `SobelRow`, `BrightnessRow`), and `GrayscaleRowsAnyOrder`, `BlurRowsAnyOrder`, `EdgeRowsAnyOrder` and `BrightnessRowsAnyOrder` show that whole row iterations give the same image in any order. Threads interleaving inside a row iteration are not modelled. The iterations write disjoint rows and read only the input.
- File I/O is left out: PPM `load_image` and `save_image`, the console messages, and the `argc` usage checks. So are `create_image`, `free_image`, `print_usage` and `MPI/gen_img.py`. The zero fill of `create_image`'s `calloc` is modelled as the initial contents of the serial output.
- The luminance `0.299 r + 0.587 g + 0.114 b`, computed in double precision and truncated, is a parameter. Every property is proved for any luminance function.
- Floats are not modelled. Blur and Sobel are modelled in integers, which the comments on `BlurValue` and `EdgeValue` justify as exact for these kernels.
- C `int` overflow for very large images is not modelled: indices and counts are unbounded integers.
- Blur and edge require `size <= height`. With more ranks than rows, a rank with no rows sends `row_size` bytes from its zero-length `local_data`, which is a read outside the allocation. Its neighbour's halo then holds whatever memory lies there. Also, the last rank with rows is then not `size - 1`, so the skip test at MPI/image_proc_mpi.c:304 does not fire for image row `height - 1`. That row is blurred or edge-filtered against an undefined bottom halo instead of being kept. The model fences this off as a precondition rather than reproducing undefined behaviour. Grayscale and brightness need no such bound.
- Halo.ReceiveMatchedOnce: its payload clause also covers a sender with no rows. There the model's total `Row` reads zeros where the source reads outside the buffer. `HaloTop` and `HaloBottom` state the halo as bytes of the neighbour's buffer only when that buffer holds a row, and every use of the halos in the pipeline is under `size <= height`.
- The total accessor `At` reads 0 outside a buffer. This keeps the specification functions free of index preconditions. `NeighboursInside`, `LocalWindowInside` and the `...Pixel` lemmas show that every read the kernels perform is inside its buffer. The one place where a zero stands for a read outside a buffer in the source is the halo row of a rank with no rows, described above.
- The even share and the leftover rows of the partition are computed by repeated subtraction (`Share` and `Extra`), and `ShareIsQuotient` proves them equal to `/` and `%`.
