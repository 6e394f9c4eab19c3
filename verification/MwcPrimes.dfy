/** The moduli of the two halves of the generator, and the halves of those moduli less one, are prime.
    Each proof names an element of prime order; the smallest primes are proved by trial division. */
module MwcPrimes {
  import opened Numbers
  import opened Orders
  import opened Primes

  // ---- the modulus 36969 * 2^16 - 1 of z

  lemma PrimeZ1Trial()
    ensures NoDivisorBelow(2161, 47)
  {
    hide NoDivisorBelow;
    NoneBelowFive(2161);
    SixStep(2161, 5);
    SixStep(2161, 11);
    SixStep(2161, 17);
    SixStep(2161, 23);
    SixStep(2161, 29);
    SixStep(2161, 35);
    SixStep(2161, 41);
  }

  lemma PrimeZ1()
    ensures Prime(2161)
  {
    hide NoDivisorBelow, Prime;
    PrimeZ1Trial();
    ISqrtIs(2161, 46);
    TrialEnd(2161, 47);
  }

  lemma PrimeZ2Power()
    ensures PowerIs(17532, 2161, 60509, 1)
  {
    hide PowerIs;
    PowerFirst(17532, 60509);
    PowerDouble(17532, 1, 60509, 17532, 5079, 45813);
    PowerDouble(17532, 2, 60509, 45813, 34686, 15795);
    PowerDouble(17532, 4, 60509, 15795, 4123, 3418);
    PowerDouble(17532, 8, 60509, 3418, 193, 4487);
    PowerDoubleNext(17532, 16, 60509, 4487, 332, 44181, 12801, 5583);
    PowerDoubleNext(17532, 33, 60509, 5583, 515, 7754, 2246, 39914);
    PowerDoubleNext(17532, 67, 60509, 39914, 26328, 46444, 13456, 47104);
    PowerDouble(17532, 135, 60509, 47104, 36668, 42804);
    PowerDouble(17532, 270, 60509, 42804, 30279, 30405);
    PowerDouble(17532, 540, 60509, 30405, 15278, 7523);
    PowerDoubleNext(17532, 1080, 60509, 7523, 935, 19614, 5683, 1);
  }

  lemma PrimeZ2()
    ensures Prime(60509)
  {
    hide PowerIs, Prime;
    PrimeZ2Power();
    PrimeZ1();
    PrimeFromOrder(60509, 2161, 17532, 33442);
  }

  lemma PrimeZ3Power()
    ensures PowerIs(4, 60509, 121019, 1)
  {
    hide PowerIs;
    PowerFirst(4, 121019);
    PowerDoubleNext(4, 1, 121019, 4, 0, 16, 0, 64);
    PowerDoubleNext(4, 3, 121019, 64, 0, 4096, 0, 16384);
    PowerDouble(4, 7, 121019, 16384, 2218, 15314);
    PowerDoubleNext(4, 14, 121019, 15314, 1937, 104793, 3, 56115);
    PowerDoubleNext(4, 29, 121019, 56115, 26019, 99864, 3, 36399);
    PowerDouble(4, 59, 121019, 36399, 10947, 92208);
    PowerDouble(4, 118, 121019, 92208, 70256, 4400);
    PowerDouble(4, 236, 121019, 4400, 159, 117979);
    PowerDoubleNext(4, 472, 121019, 117979, 115015, 44156, 1, 55605);
    PowerDouble(4, 945, 121019, 55605, 25549, 1594);
    PowerDoubleNext(4, 1890, 121019, 1594, 20, 120456, 3, 118767);
    PowerDoubleNext(4, 3781, 121019, 118767, 116556, 109725, 3, 75843);
    PowerDoubleNext(4, 7563, 121019, 75843, 47531, 6560, 0, 26240);
    PowerDouble(4, 15127, 121019, 26240, 5689, 60509);
    PowerDoubleNext(4, 30254, 121019, 60509, 30254, 30255, 1, 1);
  }

  lemma PrimeZ3()
    ensures Prime(121019)
  {
    hide PowerIs, Prime;
    PrimeZ3Power();
    PrimeZ2();
    PrimeFromOrder(121019, 60509, 4, 40340);
  }

  lemma PeriodZPower()
    ensures PowerIs(918088169, 121019, 1211400191, 1)
  {
    hide PowerIs;
    PowerFirst(918088169, 1211400191);
    PowerDoubleNext(918088169, 1, 1211400191, 918088169, 695794744, 279376457, 211732028, 708819885);
    PowerDoubleNext(918088169, 3, 1211400191, 708819885, 414747853, 1030373302, 780892677, 151362731);
    PowerDouble(918088169, 7, 1211400191, 151362731, 18912557, 1173679974);
    PowerDoubleNext(918088169, 14, 1211400191, 1173679974, 1137134277, 1018193769, 771662131, 187551940);
    PowerDoubleNext(918088169, 29, 1211400191, 187551940, 29037250, 1648850, 1249619, 982178421);
    PowerDouble(918088169, 59, 1211400191, 982178421, 796330112, 902201849);
    PowerDouble(918088169, 118, 1211400191, 902201849, 671923434, 54042907);
    PowerDouble(918088169, 236, 1211400191, 54042907, 2410958, 815317671);
    PowerDoubleNext(918088169, 472, 1211400191, 815317671, 548739309, 913056222, 691981164, 812035194);
    PowerDouble(918088169, 945, 1211400191, 812035194, 544329744, 446036532);
    PowerDoubleNext(918088169, 1890, 1211400191, 446036532, 164230276, 164204308, 124446102, 741626570);
    PowerDoubleNext(918088169, 3781, 1211400191, 741626570, 454028299, 1201959791, 910933539, 597906730);
    PowerDoubleNext(918088169, 7563, 1211400191, 597906730, 295106819, 877290471, 664875247, 994565422);
    PowerDouble(918088169, 15127, 1211400191, 994565422, 816543026, 981920118);
    PowerDoubleNext(918088169, 30254, 1211400191, 981920118, 795911314, 334472950, 253488203, 715081777);
    PowerDoubleNext(918088169, 60509, 1211400191, 715081777, 422108194, 963212675, 729993414, 1);
  }

  /** 36969 * 2^15 - 1. */
  lemma PeriodZ()
    ensures Prime(1211400191)
  {
    hide PowerIs, Prime;
    PeriodZPower();
    PrimeZ3();
    PrimeFromOrder(1211400191, 121019, 918088169, 772818513);
  }

  lemma ModulusZPower1()
    ensures PowerIs(36969, 73937, 2422800383, 2398210039)
  {
    hide PowerIs;
    PowerFirst(36969, 2422800383);
    PowerDouble(36969, 1, 2422800383, 36969, 0, 1366706961);
    PowerDouble(36969, 2, 2422800383, 1366706961, 770962366, 1622469343);
    PowerDoubleNext(36969, 4, 2422800383, 1622469343, 1086514096, 1051152881, 16039, 775514752);
    PowerDouble(36969, 9, 2422800383, 775514752, 248234701, 1912931021);
    PowerDouble(36969, 18, 2422800383, 1912931021, 1510361776, 1742742233);
    PowerDouble(36969, 36, 2422800383, 1742742233, 1253570253, 1596019390);
    PowerDouble(36969, 72, 2422800383, 1596019390, 1051377534, 1203176578);
    PowerDouble(36969, 144, 2422800383, 1203176578, 597504395, 797606799);
    PowerDoubleNext(36969, 288, 2422800383, 797606799, 262579042, 2285653315, 34876, 731244727);
    PowerDoubleNext(36969, 577, 2422800383, 731244727, 220702809, 590928682, 9016, 2074191730);
    PowerDouble(36969, 1155, 2422800383, 2074191730, 1775743211, 1079943087);
    PowerDoubleNext(36969, 2310, 2422800383, 1079943087, 481375634, 737021747, 11246, 143857625);
    PowerDouble(36969, 4621, 2422800383, 143857625, 8541775, 529140800);
    PowerDouble(36969, 9242, 2422800383, 529140800, 115564612, 9793604);
    PowerDouble(36969, 18484, 2422800383, 9793604, 39588, 857746612);
    PowerDoubleNext(36969, 36968, 2422800383, 857746612, 303668950, 2032270694, 31009, 2398210039);
  }

  lemma ModulusZPower()
    ensures PowerIs(36969, 1211400191, 2422800383, 1)
  {
    hide PowerIs;
    ModulusZPower1();
    PowerDoubleNext(36969, 73937, 2422800383, 2398210039, 2373869276, 75648813, 1154, 749325815);
    PowerDoubleNext(36969, 147875, 2422800383, 749325815, 231752141, 1049544222, 16014, 1875009756);
    PowerDoubleNext(36969, 295751, 2422800383, 1875009756, 1451073563, 897604907, 13696, 881761315);
    PowerDoubleNext(36969, 591503, 2422800383, 881761315, 320910885, 1543660270, 23554, 936300448);
    PowerDoubleNext(36969, 1183007, 2422800383, 936300448, 361836878, 2323076430, 35447, 807364469);
    PowerDoubleNext(36969, 2366015, 2422800383, 807364469, 269042959, 1694998664, 25863, 1519303887);
    PowerDoubleNext(36969, 4732031, 2422800383, 1519303887, 952734000, 956186769, 14590, 611075191);
    PowerDoubleNext(36969, 9464063, 2422800383, 611075191, 154124496, 1117204513, 17047, 455512096);
    PowerDoubleNext(36969, 18928127, 2422800383, 455512096, 85641091, 1526975363, 23299, 1926071230);
    PowerDoubleNext(36969, 37856255, 2422800383, 1926071230, 1531182844, 2147483648, 32768, 32768);
    PowerDoubleNext(36969, 75712511, 2422800383, 32768, 0, 1073741824, 16384, 16384);
    PowerDoubleNext(36969, 151425023, 2422800383, 16384, 0, 268435456, 4096, 4096);
    PowerDoubleNext(36969, 302850047, 2422800383, 4096, 0, 16777216, 256, 256);
    PowerDoubleNext(36969, 605700095, 2422800383, 256, 0, 65536, 1, 1);
  }

  /** 36969 * 2^16 - 1. */
  lemma ModulusZ()
    ensures Prime(2422800383)
  {
    hide PowerIs, Prime;
    ModulusZPower();
    PeriodZ();
    PrimeFromOrder(2422800383, 1211400191, 36969, 2288120260);
  }

  // ---- the modulus 18000 * 2^16 - 1 of w

  lemma PrimeW1Trial1()
    ensures NoDivisorBelow(105401, 89)
  {
    hide NoDivisorBelow;
    NoneBelowFive(105401);
    SixStep(105401, 5);
    SixStep(105401, 11);
    SixStep(105401, 17);
    SixStep(105401, 23);
    SixStep(105401, 29);
    SixStep(105401, 35);
    SixStep(105401, 41);
    SixStep(105401, 47);
    SixStep(105401, 53);
    SixStep(105401, 59);
    SixStep(105401, 65);
    SixStep(105401, 71);
    SixStep(105401, 77);
    SixStep(105401, 83);
  }

  lemma PrimeW1Trial2()
    requires NoDivisorBelow(105401, 89)
    ensures NoDivisorBelow(105401, 173)
  {
    hide NoDivisorBelow;
    SixStep(105401, 89);
    SixStep(105401, 95);
    SixStep(105401, 101);
    SixStep(105401, 107);
    SixStep(105401, 113);
    SixStep(105401, 119);
    SixStep(105401, 125);
    SixStep(105401, 131);
    SixStep(105401, 137);
    SixStep(105401, 143);
    SixStep(105401, 149);
    SixStep(105401, 155);
    SixStep(105401, 161);
    SixStep(105401, 167);
  }

  lemma PrimeW1Trial3()
    requires NoDivisorBelow(105401, 173)
    ensures NoDivisorBelow(105401, 257)
  {
    hide NoDivisorBelow;
    SixStep(105401, 173);
    SixStep(105401, 179);
    SixStep(105401, 185);
    SixStep(105401, 191);
    SixStep(105401, 197);
    SixStep(105401, 203);
    SixStep(105401, 209);
    SixStep(105401, 215);
    SixStep(105401, 221);
    SixStep(105401, 227);
    SixStep(105401, 233);
    SixStep(105401, 239);
    SixStep(105401, 245);
    SixStep(105401, 251);
  }

  lemma PrimeW1Trial4()
    requires NoDivisorBelow(105401, 257)
    ensures NoDivisorBelow(105401, 329)
  {
    hide NoDivisorBelow;
    SixStep(105401, 257);
    SixStep(105401, 263);
    SixStep(105401, 269);
    SixStep(105401, 275);
    SixStep(105401, 281);
    SixStep(105401, 287);
    SixStep(105401, 293);
    SixStep(105401, 299);
    SixStep(105401, 305);
    SixStep(105401, 311);
    SixStep(105401, 317);
    SixStep(105401, 323);
  }

  lemma PrimeW1()
    ensures Prime(105401)
  {
    hide NoDivisorBelow, Prime;
    PrimeW1Trial1();
    PrimeW1Trial2();
    PrimeW1Trial3();
    PrimeW1Trial4();
    ISqrtIs(105401, 324);
    TrialEnd(105401, 329);
  }

  lemma PrimeW2Power()
    ensures PowerIs(201072094, 105401, 294911999, 1)
  {
    hide PowerIs;
    PowerFirst(201072094, 294911999);
    PowerDoubleNext(201072094, 1, 294911999, 201072094, 137091698, 282060534, 192309917, 156144113);
    PowerDouble(201072094, 3, 294911999, 156144113, 82672065, 73948834);
    PowerDouble(201072094, 6, 294911999, 73948834, 18542582, 125718138);
    PowerDoubleNext(201072094, 12, 294911999, 125718138, 53592428, 149443472, 101891113, 34505481);
    PowerDoubleNext(201072094, 25, 294911999, 34505481, 4037232, 59494593, 40563634, 6543376);
    PowerDouble(201072094, 51, 294911999, 6543376, 145181, 150550557);
    PowerDoubleNext(201072094, 102, 294911999, 150550557, 76855028, 272329277, 185675110, 129251148);
    PowerDoubleNext(201072094, 205, 294911999, 129251148, 56646929, 190716833, 130031443, 184373745);
    PowerDoubleNext(201072094, 411, 294911999, 184373745, 115267191, 128400216, 87543743, 53100047);
    PowerDouble(201072094, 823, 294911999, 53100047, 9560869, 2435078);
    PowerDoubleNext(201072094, 1646, 294911999, 2435078, 20106, 104214190, 71053621, 2515481);
    PowerDoubleNext(201072094, 3293, 294911999, 2515481, 21456, 12810817, 8734462, 151431260);
    PowerDoubleNext(201072094, 6587, 294911999, 151431260, 77756844, 205216444, 139917332, 43447068);
    PowerDouble(201072094, 13175, 294911999, 43447068, 6400715, 62117339);
    PowerDouble(201072094, 26350, 294911999, 62117339, 13083780, 90164701);
    PowerDoubleNext(201072094, 52700, 294911999, 90164701, 27566437, 265441838, 180979229, 1);
  }

  lemma PrimeW2()
    ensures Prime(294911999)
  {
    hide PowerIs, Prime;
    PrimeW2Power();
    PrimeW1();
    PrimeFromOrder(294911999, 105401, 201072094, 228435226);
  }

  lemma PeriodWPower1()
    ensures PowerIs(4, 71999, 589823999, 521129230)
  {
    hide PowerIs;
    PowerFirst(4, 589823999);
    PowerDouble(4, 1, 589823999, 4, 0, 16);
    PowerDouble(4, 2, 589823999, 16, 0, 256);
    PowerDouble(4, 4, 589823999, 256, 0, 65536);
    PowerDoubleNext(4, 8, 589823999, 65536, 7, 166199303, 1, 74973213);
    PowerDoubleNext(4, 17, 589823999, 74973213, 9529932, 65105301, 0, 260421204);
    PowerDouble(4, 35, 589823999, 260421204, 114982102, 277743718);
    PowerDouble(4, 70, 589823999, 277743718, 130787443, 239218967);
    PowerDoubleNext(4, 140, 589823999, 239218967, 97021678, 64896767, 0, 259587068);
    PowerDouble(4, 281, 589823999, 259587068, 114246700, 406283324);
    PowerDouble(4, 562, 589823999, 406283324, 279856600, 401945576);
    PowerDoubleNext(4, 1124, 589823999, 401945576, 273912635, 313644411, 2, 74929646);
    PowerDoubleNext(4, 2249, 589823999, 74929646, 9518859, 368388175, 2, 293904702);
    PowerDoubleNext(4, 4499, 589823999, 293904702, 146450422, 298431226, 2, 14076906);
    PowerDoubleNext(4, 8999, 589823999, 14076906, 335963, 242356799, 1, 379603197);
    PowerDoubleNext(4, 17999, 589823999, 379603197, 244307772, 104800581, 0, 419202324);
    PowerDoubleNext(4, 35999, 589823999, 419202324, 297937331, 425194307, 2, 521129230);
  }

  lemma PeriodWPower()
    ensures PowerIs(4, 294911999, 589823999, 1)
  {
    hide PowerIs;
    PeriodWPower1();
    PowerDoubleNext(4, 71999, 589823999, 521129230, 460435104, 39132004, 0, 156528016);
    PowerDoubleNext(4, 143999, 589823999, 156528016, 41539543, 424003799, 2, 516367198);
    PowerDoubleNext(4, 287999, 589823999, 516367198, 452058721, 567325925, 3, 499831703);
    PowerDoubleNext(4, 575999, 589823999, 499831703, 423569966, 121466175, 0, 485864700);
    PowerDoubleNext(4, 1151999, 589823999, 485864700, 400228724, 201742724, 1, 217146897);
    PowerDoubleNext(4, 2303999, 589823999, 217146897, 79943805, 116352414, 0, 465409656);
    PowerDoubleNext(4, 4607999, 589823999, 465409656, 367238614, 1340950, 0, 5363800);
    PowerDoubleNext(4, 9215999, 589823999, 5363800, 48777, 505240777, 3, 251491111);
    PowerDoubleNext(4, 18431999, 589823999, 251491111, 107231613, 113133934, 0, 452535736);
    PowerDoubleNext(4, 36863999, 589823999, 452535736, 347202882, 31496578, 0, 125986312);
    PowerDoubleNext(4, 73727999, 589823999, 125986312, 26910656, 73728000, 0, 294912000);
    PowerDoubleNext(4, 147455999, 589823999, 294912000, 147456000, 147456000, 1, 1);
  }

  /** 18000 * 2^15 - 1. */
  lemma PeriodW()
    ensures Prime(589823999)
  {
    hide PowerIs, Prime;
    PeriodWPower();
    PrimeW2();
    PrimeFromOrder(589823999, 294911999, 4, 196608000);
  }

  lemma ModulusWPower1()
    ensures PowerIs(18000, 71999, 1179647999, 181552424)
  {
    hide PowerIs;
    PowerFirst(18000, 1179647999);
    PowerDouble(18000, 1, 1179647999, 18000, 0, 324000000);
    PowerDouble(18000, 2, 1179647999, 324000000, 88989257, 1047453257);
    PowerDouble(18000, 4, 1179647999, 1047453257, 930072637, 438204686);
    PowerDoubleNext(18000, 8, 1179647999, 438204686, 162780208, 188354804, 2874, 78122874);
    PowerDoubleNext(18000, 17, 1179647999, 78122874, 5173732, 840857608, 12830, 553116830);
    PowerDouble(18000, 35, 1179647999, 553116830, 259347049, 229843949);
    PowerDouble(18000, 70, 1179647999, 229843949, 44783054, 851705655);
    PowerDoubleNext(18000, 140, 1179647999, 851705655, 614931338, 364886363, 5567, 854123567);
    PowerDouble(18000, 281, 1179647999, 854123567, 618427758, 454047247);
    PowerDouble(18000, 562, 1179647999, 454047247, 174763067, 222626076);
    PowerDoubleNext(18000, 1124, 1179647999, 222626076, 42014541, 495604317, 7562, 379537562);
    PowerDoubleNext(18000, 2249, 1179647999, 379537562, 122111647, 930759491, 14202, 309956202);
    PowerDoubleNext(18000, 4499, 1179647999, 309956202, 81441961, 829978765, 12664, 555510664);
    PowerDoubleNext(18000, 8999, 1179647999, 555510664, 261596762, 979541658, 14946, 730850946);
    PowerDoubleNext(18000, 17999, 1179647999, 730850946, 452798721, 91685637, 1399, 13915399);
    PowerDoubleNext(18000, 35999, 1179647999, 13915399, 164149, 289941350, 4424, 181552424);
  }

  lemma ModulusWPower()
    ensures PowerIs(18000, 589823999, 1179647999, 1)
  {
    hide PowerIs;
    ModulusWPower1();
    PowerDoubleNext(18000, 71999, 1179647999, 181552424, 27941625, 640217401, 9768, 1111563768);
    PowerDoubleNext(18000, 143999, 1179647999, 1111563768, 1047409067, 309350891, 4720, 377482720);
    PowerDoubleNext(18000, 287999, 1179647999, 377482720, 120792985, 850111385, 12971, 790734971);
    PowerDoubleNext(18000, 575999, 1179647999, 790734971, 530040990, 1120891831, 17103, 533231103);
    PowerDoubleNext(18000, 1151999, 1179647999, 533231103, 241034113, 115406722, 1760, 1140517760);
    PowerDoubleNext(18000, 2303999, 1179647999, 1140517760, 1102685514, 759031114, 11581, 1056575581);
    PowerDoubleNext(18000, 4607999, 1179647999, 1056575581, 946343281, 566742842, 8647, 954908647);
    PowerDoubleNext(18000, 9215999, 1179647999, 954908647, 772985267, 642339876, 9801, 387729801);
    PowerDoubleNext(18000, 18431999, 1179647999, 387729801, 127440048, 967835649, 14768, 32768);
    PowerDoubleNext(18000, 36863999, 1179647999, 32768, 0, 1073741824, 16384, 16384);
    PowerDoubleNext(18000, 73727999, 1179647999, 16384, 0, 268435456, 4096, 4096);
    PowerDoubleNext(18000, 147455999, 1179647999, 4096, 0, 16777216, 256, 256);
    PowerDoubleNext(18000, 294911999, 1179647999, 256, 0, 65536, 1, 1);
  }

  /** 18000 * 2^16 - 1. */
  lemma ModulusW()
    ensures Prime(1179647999)
  {
    hide PowerIs, Prime;
    ModulusWPower();
    PeriodW();
    PrimeFromOrder(1179647999, 589823999, 18000, 336677136);
  }
}
